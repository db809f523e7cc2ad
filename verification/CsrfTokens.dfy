/**
 * Session-bound anti-CSRF tokens: the length-prefixed message the token signs, and which
 * session a token binds to.
 */
module CsrfTokens {
  import opened JsText
  import opened Wrappers

  // ---------------------------------------------------------------- the signed message

  /** sid.length + "!" + sid + "!" + nonce.length + "!" + nonce */
  function Message(sid: string, nonce: string): string {
    Prefixed(sid) + ("!" + Prefixed(nonce))
  }

  function Prefixed(s: string): string { Digits(|s|) + ("!" + s) }

  lemma {:induction false} SameUpToMark(p: string, q: string, x: string, y: string)
    requires '!' !in p && '!' !in q && p + ("!" + x) == q + ("!" + y)
    ensures p == q && x == y
    decreases |p|
  {
    var s := p + ("!" + x);
    assert s[0] == if p == "" then '!' else p[0];
    assert s[0] == if q == "" then '!' else q[0];
    if p == "" {
      assert s[1..] == x && s[1..] == y;
    } else {
      assert s[1..] == p[1..] + ("!" + x) == q[1..] + ("!" + y);
      SameUpToMark(p[1..], q[1..], x, y);
      assert p == [p[0]] + p[1..] && q == [q[0]] + q[1..];
    }
  }

  /** A length-prefixed text can be read off the front of anything. */
  lemma PrefixedReadsBack(s: string, t: string, x: string, y: string)
    requires Prefixed(s) + x == Prefixed(t) + y
    ensures s == t && x == y
  {
    NumberOfDigits(|s|);
    NumberOfDigits(|t|);
    assert Prefixed(s) + x == Digits(|s|) + ("!" + (s + x));
    assert Prefixed(t) + y == Digits(|t|) + ("!" + (t + y));
    SameUpToMark(Digits(|s|), Digits(|t|), s + x, t + y);
    assert (s + x)[..|s|] == s && (t + y)[..|t|] == t;
    assert (s + x)[|s|..] == x && (t + y)[|t|..] == y;
  }

  /** Main result on the encoding: two different pairs never sign the same message. */
  lemma MessageInjective(sid: string, nonce: string, sid': string, nonce': string)
    requires Message(sid, nonce) == Message(sid', nonce')
    ensures sid == sid' && nonce == nonce'
  {
    PrefixedReadsBack(sid, sid', "!" + Prefixed(nonce), "!" + Prefixed(nonce'));
    assert ("!" + Prefixed(nonce))[1..] == Prefixed(nonce) && ("!" + Prefixed(nonce'))[1..] == Prefixed(nonce');
    PrefixedReadsBack(nonce, nonce', "", "");
  }

  // ---------------------------------------------------------------- tokens

  type Mac = string -> string

  predicate AllHex(s: string) { forall i :: 0 <= i < |s| ==> IsHex(s[i]) }

  /** A keyed hash prints as 64 hex digits. */
  ghost predicate Shaped(mac: Mac) { forall m :: |mac(m)| == 64 && AllHex(mac(m)) }

  /** Two messages with one hash. */
  predicate Collide(mac: Mac, m: string, n: string) { m != n && mac(m) == mac(n) }

  /** Any two messages are kept apart by some hash of that shape. */
  lemma SomeMacKeepsApart(m: string, n: string) returns (mac: Mac)
    requires m != n
    ensures Shaped(mac) && !Collide(mac, m, n)
  {
    var zeros, ones := seq(64, _ => '0'), seq(64, _ => '1');
    assert zeros[0] != ones[0];
    mac := k => if k == m then zeros else ones;
  }

  predicate IsNonce(nonce: string) { |nonce| == 32 && AllHex(nonce) }

  function Mint(mac: Mac, sid: string, nonce: string): string { mac(Message(sid, nonce)) + "." + nonce }

  datatype Reason = Stale | BindingMismatch | Missing | SessionMismatch

  predicate SignedShape(token: string) {
    |token| == 97 && AllHex(token[..64]) && token[64] == '.' && AllHex(token[65..])
  }

  /** None when the token is a valid signed token for sid. */
  function Check(mac: Mac, token: Option<string>, sid: string): Option<Reason> {
    if token == None || !SignedShape(token.value) then Some(Stale)
    else if sid == "" then Some(BindingMismatch)
    else if token.value[..64] == mac(Message(sid, token.value[65..])) then None
    else Some(BindingMismatch)
  }

  lemma MintedPasses(mac: Mac, sid: string, nonce: string)
    requires Shaped(mac) && IsNonce(nonce) && sid != ""
    ensures Check(mac, Some(Mint(mac, sid, nonce)), sid) == None
  {
    var token := Mint(mac, sid, nonce);
    assert token[..64] == mac(Message(sid, nonce)) && token[65..] == nonce;
  }

  /** The token is the hash of the session's id and 32 hex digits, each after its length and a mark,
      then a dot and those digits. */
  predicate IsTokenOf(mac: Mac, token: string, sid: string, nonce: string) {
    && |nonce| == 32 && (forall i :: 0 <= i < 32 ==> '0' <= nonce[i] <= '9' || 'a' <= nonce[i] <= 'f')
    && token == mac(Digits(|sid|) + "!" + sid + "!" + Digits(|nonce|) + "!" + nonce) + "." + nonce
  }

  lemma MessageIs(sid: string, nonce: string)
    ensures Message(sid, nonce) == Digits(|sid|) + "!" + sid + "!" + Digits(|nonce|) + "!" + nonce
  {
  }

  lemma TokenOfIff(mac: Mac, token: string, sid: string, nonce: string)
    ensures IsTokenOf(mac, token, sid, nonce) <==> IsNonce(nonce) && token == Mint(mac, sid, nonce)
  {
    MessageIs(sid, nonce);
  }

  /** A token passes for a session exactly when it was minted for it, with some nonce. */
  lemma CheckIffMinted(mac: Mac, token: string, sid: string)
    requires Shaped(mac)
    ensures Check(mac, Some(token), sid) == None <==> sid != "" && exists nonce :: IsTokenOf(mac, token, sid, nonce)
  {
    if sid != "" {
      if Check(mac, Some(token), sid) == None {
        var nonce := token[65..];
        assert token == token[..64] + [token[64]] + token[65..];
        TokenOfIff(mac, token, sid, nonce);
      }
      forall nonce | IsTokenOf(mac, token, sid, nonce) ensures Check(mac, Some(token), sid) == None {
        TokenOfIff(mac, token, sid, nonce);
        MintedPasses(mac, sid, nonce);
      }
    }
  }

  /** The nonce of a signed token. */
  function Nonce(token: Option<string>): string
    requires token.Some? && SignedShape(token.value)
  {
    token.value[65..]
  }

  /** A token that binds to one session binds to a second exactly when the hash collides on the two
      messages it would sign. */
  lemma TokenBindsOnce(mac: Mac, token: Option<string>, sid: string, sid': string)
    requires Check(mac, token, sid) == None
    ensures Check(mac, token, sid') == None <==>
      sid' == sid || (sid' != "" && Collide(mac, Message(sid, Nonce(token)), Message(sid', Nonce(token))))
  {
    if Message(sid, Nonce(token)) == Message(sid', Nonce(token)) {
      MessageInjective(sid, Nonce(token), sid', Nonce(token));
    }
  }
}
