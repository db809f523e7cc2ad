/** JavaScript's white space, trimming, lines, and decimal printing of natural numbers. */
module JsText {
  /** The characters JavaScript's \s matches. */
  predicate IsSpace(c: char) {
    || c == ' ' || '\t' <= c <= '\r' || c == '\U{A0}' || c == '\U{1680}' || '\U{2000}' <= c <= '\U{200A}'
    || c == '\U{2028}' || c == '\U{2029}' || c == '\U{202F}' || c == '\U{205F}' || c == '\U{3000}' || c == '\U{FEFF}'
  }

  /** White space by code: tab to carriage return, space, and the space and line separators of Unicode. */
  lemma SpaceIff(c: char)
    ensures IsSpace(c) <==> (c as int) in {9, 10, 11, 12, 13, 32, 160, 5760, 8192, 8193, 8194, 8195, 8196, 8197, 8198,
                                           8199, 8200, 8201, 8202, 8232, 8233, 8239, 8287, 12288, 65279}
  {
  }

  function TrimEnd(s: string): string {
    if s != "" && IsSpace(s[|s| - 1]) then TrimEnd(s[..|s| - 1]) else s
  }

  function TrimStart(s: string): string {
    if s != "" && IsSpace(s[0]) then TrimStart(s[1..]) else s
  }

  function Trim(s: string): string { TrimStart(TrimEnd(s)) }

  lemma {:induction false} TrimEndKeeps(s: string, keep: string)
    requires keep <= s && keep != "" && !IsSpace(keep[|keep| - 1])
    ensures keep <= TrimEnd(s)
  {
    if IsSpace(s[|s| - 1]) {
      TrimEndKeeps(s[..|s| - 1], keep);
    }
  }

  /** s.includes(t). */
  predicate Contains(s: string, t: string) { t <= s || (s != "" && Contains(s[1..], t)) }

  lemma {:induction false} ContainsIff(s: string, t: string)
    ensures Contains(s, t) <==> exists i :: 0 <= i <= |s| && t <= s[i..]
  {
    assert s[0..] == s;
    if s != "" {
      ContainsIff(s[1..], t);
      assert forall i :: 0 <= i < |s| ==> s[1..][i..] == s[i + 1..];
      assert forall i :: 0 < i <= |s| ==> s[i..] == s[1..][i - 1..];
    }
  }

  predicate IsHex(c: char) { '0' <= c <= '9' || 'a' <= c <= 'f' }

  predicate IsDigit(c: char) { '0' <= c <= '9' }

  predicate AllDigits(s: string) { forall i :: 0 <= i < |s| ==> IsDigit(s[i]) }

  function Digit(d: nat): char
    requires d < 10
  {
    ('0' as int + d) as char
  }

  /** A number as JavaScript prints it. */
  function Digits(n: nat): string {
    if n < 10 then [Digit(n)] else Digits(n / 10) + [Digit(n % 10)]
  }

  function Number(s: string): int {
    if s == "" then 0 else 10 * Number(s[..|s| - 1]) + (s[|s| - 1] as int - '0' as int)
  }

  lemma {:induction false} NumberNat(s: string)
    requires AllDigits(s)
    ensures Number(s) >= 0
  {
    if s != "" { NumberNat(s[..|s| - 1]); }
  }

  lemma {:induction false} NumberOfDigits(n: nat)
    ensures Number(Digits(n)) == n
    ensures AllDigits(Digits(n)) && Digits(n) != ""
    ensures n > 0 ==> Digits(n)[0] != '0'
  {
    if n < 10 {
      assert Digits(n)[..0] == "";
    } else {
      NumberOfDigits(n / 10);
      assert Digits(n)[..|Digits(n)| - 1] == Digits(n / 10);
    }
  }

  function Newlines(s: string): nat {
    if s == "" then 0 else Newlines(s[..|s| - 1]) + if s[|s| - 1] == '\n' then 1 else 0
  }

  lemma NewlinesStep(text: string, i: nat)
    requires i < |text|
    ensures Newlines(text[..i + 1]) == Newlines(text[..i]) + if text[i] == '\n' then 1 else 0
  {
    assert text[..i + 1][..i] == text[..i];
  }
}
