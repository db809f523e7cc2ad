/** Which texts are Transit key files, and of which version: exactly the lines of the format. */
module KeyFiles {
  import opened JsText
  import opened Wrappers
  import opened KeyRewrap

  /** One or more characters of the base64 alphabet, then at most two pads. */
  predicate Base64Line(body: string, core: string, pad: string) {
    && body == core + pad && core != "" && (pad == "" || pad == "=" || pad == "==")
    && forall i :: 0 <= i < |core| ==>
         'A' <= core[i] <= 'Z' || 'a' <= core[i] <= 'z' || '0' <= core[i] <= '9' || core[i] == '+' || core[i] == '/'
  }

  /** "vault:v", a number without leading zeros, a colon, and base64. */
  predicate TransitLine(line: string, digits: string, core: string, pad: string) {
    && line == "vault:v" + (digits + (":" + (core + pad))) && Base64Line(core + pad, core, pad)
    && digits != "" && digits[0] != '0' && forall i :: 0 <= i < |digits| ==> '0' <= digits[i] <= '9'
  }

  lemma DropsPad(core: string, pad: string)
    requires Base64Line(core + pad, core, pad)
    ensures DropPad(core + pad, 2) == core
  {
    var s := core + pad;
    if pad == "=" {
      assert s[..|s| - 1] == core;
    } else if pad == "==" {
      var t := s[..|s| - 1];
      assert t == core + "=" && t[..|t| - 1] == core;
      assert DropPad(s, 2) == DropPad(t, 1) == DropPad(core, 0);
    } else {
      assert s == core;
    }
  }

  lemma PadDropped(s: string)
    requires IsBody(s)
    ensures exists core, pad :: Base64Line(s, core, pad)
  {
    var core := DropPad(s, 2);
    if s[|s| - 1] == '=' {
      var t := s[..|s| - 1];
      if t != "" && t[|t| - 1] == '=' {
        assert DropPad(s, 2) == DropPad(t, 1) == DropPad(t[..|t| - 1], 0) == t[..|t| - 1];
        assert s == core + "==";
        assert Base64Line(s, core, "==");
      } else {
        assert DropPad(s, 2) == DropPad(t, 1) == t;
        assert s == core + "=";
        assert Base64Line(s, core, "=");
      }
    } else {
      assert core == s && s == core + "";
      assert Base64Line(s, core, "");
    }
  }

  lemma ReadsLine(text: string, digits: string, core: string, pad: string)
    requires TransitLine(Trim(text), digits, core, pad)
    ensures VersionOf(text).Some? && VersionOf(text).value == Number(digits)
  {
    var t, body := Trim(text), core + pad;
    var rest := digits + (":" + body);
    assert t[..|PREFIX|] == PREFIX && t[|PREFIX|..] == rest;
    DigitRunIs(digits, ":" + body);
    assert rest[..|digits|] == digits && rest[|digits| + 1..] == body;
    DropsPad(core, pad);
  }

  lemma LineJoins(t: string, rest: string, digits: string, body: string)
    requires PREFIX <= t && rest == t[|PREFIX|..] && digits <= rest
    requires |digits| < |rest| && rest[|digits|] == ':' && body == rest[|digits| + 1..]
    ensures t == PREFIX + (digits + (":" + body))
  {
    assert rest == digits + (":" + body);
  }

  lemma LineRead(text: string) returns (digits: string, core: string, pad: string)
    requires VersionOf(text).Some?
    ensures TransitLine(Trim(text), digits, core, pad)
  {
    var t := Trim(text);
    var rest := t[|PREFIX|..];
    digits := rest[..DigitRun(rest)];
    var body := rest[|digits| + 1..];
    PadDropped(body);
    core, pad :| Base64Line(body, core, pad);
    LineJoins(t, rest, digits, body);
  }

  /** Main result: a text is a Transit key file of a version exactly when it is, up to white space
      around it, a line of the format with that number. */
  lemma VersionReadsIff(text: string, n: nat)
    ensures VersionOf(text) == Some(n) <==>
            exists digits, core, pad :: TransitLine(Trim(text), digits, core, pad) && Number(digits) == n
  {
    if VersionOf(text) == Some(n) {
      var digits, core, pad := LineRead(text);
      ReadsLine(text, digits, core, pad);
    }
    if digits, core, pad :| TransitLine(Trim(text), digits, core, pad) && Number(digits) == n {
      ReadsLine(text, digits, core, pad);
    }
  }
}
