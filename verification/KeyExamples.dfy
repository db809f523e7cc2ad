/** What the concrete examples share: a hash without collisions, and the plan of a move. */
module KeyExamples {
  import opened JsText
  import opened Wrappers
  import opened KeyEntries
  import opened KeyTransfers

  function Hash(x: string): string { "#" + x }

  lemma NotMqtt(e: Value)
    requires |Text(e, "alias")| < |MQTT_ALIAS|
    ensures !IsOwnerMqttKey(e)
  {
    ContainsIff(Text(e, "alias"), MQTT_ALIAS);
  }

  /** The plan of a move whose entry is found and may move. */
  lemma MovePlanned(c: Codec, op: Op, rawSource: Option<string>, rawTarget: Option<string>, texts: (string, string),
                    source: seq<Value>, target: seq<Value>, e: Value)
    requires op.job.MoveJob? && c.Entries(rawSource) == Some(source) && c.Entries(rawTarget) == Some(target)
    requires FindDeviceKey(c.sha, source, op.job.Lastkey()) == Found(0, e) && IsEntry(e)
    requires !IsOwnerMqttKey(e) && !HoldsSameKey(target, e)
    requires c.parse(texts.0) == Some(RemoveAt(source, 0))
    requires c.parse(texts.1) == Some(target +
      [MovedEntry(e, op.job.from, op.job.to, op.job.device, "t", false, target)])
    ensures Plan(c, op, 1, rawSource, rawTarget, texts, "t") ==
            Op(op.job, Sent(1, e, Move(op.job.from, op.job.to, (Wire(rawSource), Wire(rawTarget)), texts, op.job.key,
                                       op.job.device, "t")),
               op.sent + 1)
  {
  }
}
