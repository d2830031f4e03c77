/** The few Python string built-ins the two cores rely on, stated over `string`
    (`seq<char>`): `str.strip()`, `str.split('\n')`, `int(...)` on a stripped
    string, and `str(...)` of an integer. */
module PyStr {

  datatype Option<+T> = None | Some(value: T)

  /** The characters Python's `str.isspace()` accepts, which is exactly the set
      that `str.strip()` with no argument removes from both ends. */
  predicate IsSpace(c: char) {
    || ('\t' <= c <= '\r')
    || ('\U{1C}' <= c <= '\U{1F}')
    || c == ' '
    || c == '\U{85}'
    || c == '\U{A0}'
    || c == '\U{1680}'
    || ('\U{2000}' <= c <= '\U{200A}')
    || c == '\U{2028}'
    || c == '\U{2029}'
    || c == '\U{202F}'
    || c == '\U{205F}'
    || c == '\U{3000}'
  }

  predicate AllSpace(s: string) {
    forall i :: 0 <= i < |s| ==> IsSpace(s[i])
  }

  /** `s.strip()`: whitespace is taken off both ends until neither end is
      whitespace. That the result is a middle part of `s` with only whitespace
      around it is stated by `StripSpec`. */
  function Strip(s: string): string {
    if |s| == 0 || (!IsSpace(s[0]) && !IsSpace(s[|s| - 1])) then s
    else Strip(if IsSpace(s[0]) then s[1..] else s[..|s| - 1])
  }

  /** `Strip(s)` neither starts nor ends with whitespace, and `s` is some
      whitespace, then `Strip(s)`, then some whitespace. */
  lemma {:induction false} StripSpec(s: string)
    ensures var r := Strip(s);
      && (r == [] || (!IsSpace(r[0]) && !IsSpace(r[|r| - 1])))
      && exists lead: nat | lead + |r| <= |s| :: StrippedAt(s, lead, r)
  {
    var r := Strip(s);
    if |s| == 0 || (!IsSpace(s[0]) && !IsSpace(s[|s| - 1])) {
      assert StrippedAt(s, 0, r);
    } else if IsSpace(s[0]) {
      StripSpec(s[1..]);
      var lead: nat :| lead + |r| <= |s| - 1 && StrippedAt(s[1..], lead, r);
      StrippedAtFront(s, lead, r);
    } else {
      StripSpec(s[..|s| - 1]);
      var lead: nat :| lead + |r| <= |s| - 1 && StrippedAt(s[..|s| - 1], lead, r);
      StrippedAtBack(s, lead, r);
    }
  }

  lemma StrippedAtFront(s: string, lead: nat, r: string)
    requires |s| > 0 && IsSpace(s[0])
    requires lead + |r| <= |s| - 1 && StrippedAt(s[1..], lead, r)
    ensures StrippedAt(s, lead + 1, r)
  {
    assert s[1..][lead..lead + |r|] == s[lead + 1..lead + 1 + |r|];
    assert s[..lead + 1] == [s[0]] + s[1..][..lead];
    assert s[1..][lead + |r|..] == s[lead + 1 + |r|..];
  }

  lemma StrippedAtBack(s: string, lead: nat, r: string)
    requires |s| > 0 && IsSpace(s[|s| - 1])
    requires lead + |r| <= |s| - 1 && StrippedAt(s[..|s| - 1], lead, r)
    ensures StrippedAt(s, lead, r)
  {
    var t := s[..|s| - 1];
    assert t[lead..lead + |r|] == s[lead..lead + |r|];
    assert t[..lead] == s[..lead];
    assert s[lead + |r|..] == t[lead + |r|..] + [s[|s| - 1]];
  }

  /** `s` is `r` surrounded by whitespace, with `lead` characters in front. */
  predicate StrippedAt(s: string, lead: nat, r: string)
    requires lead + |r| <= |s|
  {
    && r == s[lead..lead + |r|]
    && AllSpace(s[..lead])
    && AllSpace(s[lead + |r|..])
  }

  /** Stripping a string that has no whitespace at either end gives it back. */
  lemma StripTrimmed(s: string)
    requires s == [] || (!IsSpace(s[0]) && !IsSpace(s[|s| - 1]))
    ensures Strip(s) == s
  {
  }

  /** `"\n".join(lines)`; Python's `split` never returns an empty list, so
      neither is `Join` given one. */
  function Join(lines: seq<string>): string
    requires |lines| >= 1
  {
    if |lines| == 1 then lines[0] else lines[0] + "\n" + Join(lines[1..])
  }

  /** `s.split('\n')`: the pieces between newlines, at least one of them (the
      empty string splits into `[""]`), none holding a newline, and joining
      them with newlines gives `s` back. */
  function Split(s: string): (lines: seq<string>)
    ensures |lines| >= 1
    ensures forall k :: 0 <= k < |lines| ==> '\n' !in lines[k]
    ensures Join(lines) == s
  {
    if s == [] then [""]
    else
      var rest := Split(s[1..]);
      if s[0] == '\n' then
        assert ([""] + rest)[1..] == rest;
        [""] + rest
      else
        var lines := [[s[0]] + rest[0]] + rest[1..];
        assert lines[1..] == rest[1..];
        lines
  }

  lemma {:induction false} SplitNoNewline(w: string)
    requires '\n' !in w
    ensures Split(w) == [w]
  {
    if w != [] {
      assert '\n' !in w[1..];
      SplitNoNewline(w[1..]);
    }
  }

  lemma {:induction false} SplitAfterLine(w: string, t: string)
    requires '\n' !in w
    ensures Split(w + "\n" + t) == [w] + Split(t)
  {
    if w == [] {
      assert w + "\n" + t == "\n" + t;
      assert ("\n" + t)[1..] == t;
    } else {
      assert (w + "\n" + t)[1..] == w[1..] + "\n" + t;
      assert '\n' !in w[1..];
      SplitAfterLine(w[1..], t);
      assert [w[0]] + w[1..] == w;
    }
  }

  /** Two newline-free lines joined by a newline split back into the two. */
  lemma SplitTwoLines(first: string, second: string)
    requires '\n' !in first && '\n' !in second
    ensures Split(first + "\n" + second) == [first, second]
  {
    SplitAfterLine(first, second);
    SplitNoNewline(second);
  }

  /** Splitting newline-free lines joined by newlines gives the lines back: the
      converse of `Join(Split(s)) == s`. */
  lemma {:induction false} SplitJoin(lines: seq<string>)
    requires |lines| >= 1
    requires forall k :: 0 <= k < |lines| ==> '\n' !in lines[k]
    ensures Split(Join(lines)) == lines
  {
    if |lines| == 1 {
      SplitNoNewline(lines[0]);
    } else {
      SplitJoin(lines[1..]);
      SplitAfterLine(lines[0], Join(lines[1..]));
    }
  }

  predicate IsDigit(c: char) {
    '0' <= c <= '9'
  }

  predicate AllDigits(s: string) {
    forall i :: 0 <= i < |s| ==> IsDigit(s[i])
  }

  /** The text after an optional leading `+` or `-`. */
  function Unsigned(s: string): (u: string)
    ensures |u| <= |s| && u == s[|s| - |u|..]
  {
    if |s| > 0 && (s[0] == '+' || s[0] == '-') then s[1..] else s
  }

  /** What `int()` accepts in this model: an optional sign followed by one or more
      ASCII decimal digits, with no whitespace anywhere. */
  predicate IsIntLiteral(s: string) {
    |Unsigned(s)| > 0 && AllDigits(Unsigned(s))
  }

  /** The value of a run of decimal digits, most significant first. */
  function DigitsValue(ds: string): nat
    requires AllDigits(ds)
  {
    if ds == [] then 0
    else DigitsValue(ds[..|ds| - 1]) * 10 + (ds[|ds| - 1] as int - '0' as int)
  }

  /** `int(s)` on an already stripped string: `None` stands for the `ValueError`. */
  function ParseInt(s: string): (r: Option<int>)
    ensures r.Some? <==> IsIntLiteral(s)
    ensures r.Some? && |s| > 0 && s[0] == '-' ==> r.value <= 0
    ensures r.Some? && (|s| == 0 || s[0] != '-') ==> r.value >= 0
  {
    var u := Unsigned(s);
    if |u| > 0 && AllDigits(u) then
      var n: int := DigitsValue(u);
      Some(if s[0] == '-' then -n else n)
    else
      None
  }

  function DigitChar(d: nat): char
    requires d < 10
  {
    ('0' as int + d) as char
  }

  /** `str(n)` for a natural number: the shortest decimal digits of `n`. */
  function ShowNat(n: nat): (r: string)
    ensures |r| > 0 && AllDigits(r)
    ensures DigitsValue(r) == n
    ensures r[0] == '0' ==> n == 0
    ensures n == 0 ==> r == "0"
  {
    if n < 10 then [DigitChar(n)]
    else
      var front := ShowNat(n / 10);
      var r := front + [DigitChar(n % 10)];
      assert r[..|r| - 1] == front;
      r
  }

  /** `str(n)` for any integer: a minus sign only for negative numbers. */
  function ShowInt(n: int): (r: string)
    ensures |r| > 0 && '\n' !in r
    ensures r[0] == '-' <==> n < 0
    ensures n >= 0 ==> r == ShowNat(n)
    ensures n < 0 ==> r == "-" + ShowNat(-n)
  {
    if n < 0 then "-" + ShowNat(-n) else ShowNat(n)
  }

  predicate AllZeros(s: string) {
    forall i :: 0 <= i < |s| ==> s[i] == '0'
  }

  predicate IsSign(sign: string) {
    sign == "" || sign == "+" || sign == "-"
  }

  /** A string of zeros has the value 0. */
  lemma {:induction false} ZerosValue(zeros: string)
    requires AllZeros(zeros)
    ensures AllDigits(zeros) && DigitsValue(zeros) == 0
  {
    if zeros != [] {
      ZerosValue(zeros[..|zeros| - 1]);
    }
  }

  /** Leading zeros do not change the value of a run of digits. */
  lemma {:induction false} LeadingZeros(zeros: string, ds: string)
    requires AllZeros(zeros) && AllDigits(ds)
    ensures AllDigits(zeros + ds) && DigitsValue(zeros + ds) == DigitsValue(ds)
  {
    if ds == [] {
      assert zeros + ds == zeros;
      ZerosValue(zeros);
    } else {
      var t := zeros + ds;
      assert t[..|t| - 1] == zeros + ds[..|ds| - 1];
      LeadingZeros(zeros, ds[..|ds| - 1]);
    }
  }

  lemma ConcatAssoc(a: string, b: string, c: string)
    ensures a + b + c == a + (b + c)
  {
  }

  /** `Unsigned` removes exactly the sign in front of a run of digits. */
  lemma UnsignedSigned(sign: string, u: string)
    requires IsSign(sign) && |u| > 0 && IsDigit(u[0])
    ensures Unsigned(sign + u) == u
  {
    if sign == "" {
      assert sign + u == u;
    } else {
      assert (sign + u)[1..] == u;
    }
  }

  /** A `-` in front makes a string start with `-`; no sign or `+` does not. */
  lemma MinusFirst(sign: string, u: string)
    requires IsSign(sign) && |u| > 0 && IsDigit(u[0])
    ensures (sign + u)[0] == '-' <==> sign == "-"
  {
  }

  /** `ParseInt` of a string whose digits after the sign are `u`. */
  lemma ParseDigits(s: string, u: string, negative: bool)
    requires Unsigned(s) == u && |u| > 0 && AllDigits(u)
    requires |s| > 0 && (s[0] == '-' <==> negative)
    ensures ParseInt(s) == Some(if negative then -(DigitsValue(u) as int) else DigitsValue(u) as int)
  {
  }

  /** A sign followed by digits parses to the digits' value, negated after `-`. */
  lemma ParseSigned(sign: string, u: string)
    requires IsSign(sign) && |u| > 0 && AllDigits(u)
    ensures ParseInt(sign + u) == Some(if sign == "-" then -(DigitsValue(u) as int) else DigitsValue(u) as int)
  {
    UnsignedSigned(sign, u);
    MinusFirst(sign, u);
    ParseDigits(sign + u, u, sign == "-");
  }

  /** The value `int()` gives for every string it accepts here: an optional sign,
      any number of leading zeros, then the canonical digits of `n`. */
  lemma ParseIntValue(sign: string, zeros: string, n: nat)
    requires IsSign(sign) && AllZeros(zeros)
    ensures ParseInt(sign + zeros + ShowNat(n)) == Some(if sign == "-" then -(n as int) else n as int)
  {
    var ds := ShowNat(n);
    LeadingZeros(zeros, ds);
    ParseSigned(sign, zeros + ds);
    ConcatAssoc(sign, zeros, ds);
  }

  /** Digits that do not start with `0` are the canonical text of their value. */
  lemma {:induction false} CanonicalDigits(ds: string)
    requires |ds| > 0 && AllDigits(ds) && ds[0] != '0'
    ensures ShowNat(DigitsValue(ds)) == ds
  {
    var front := ds[..|ds| - 1];
    var d := ds[|ds| - 1];
    var v := d as int - '0' as int;
    assert DigitChar(v) == d;
    assert ds == front + [d];
    if front != [] {
      CanonicalDigits(front);
      assert DigitsValue(front) != 0;
      var n := DigitsValue(ds);
      assert n / 10 == DigitsValue(front) && n % 10 == v;
    }
  }

  /** The number of `0`s at the start of `s`. */
  function ZeroRun(s: string): (k: nat)
    ensures k <= |s| && AllZeros(s[..k])
    ensures k == |s| || s[k] != '0'
  {
    if |s| == 0 || s[0] != '0' then 0
    else
      var k := 1 + ZeroRun(s[1..]);
      assert s[..k] == [s[0]] + s[1..][..k - 1];
      k
  }

  /** A non-empty run of digits is some zeros followed by the canonical digits
      of a number, which keep one `0` when the run is all zeros. */
  lemma CanonicalSplit(u: string) returns (zeros: string, n: nat)
    requires |u| > 0 && AllDigits(u)
    ensures AllZeros(zeros) && u == zeros + ShowNat(n)
  {
    var k := ZeroRun(u);
    if k == |u| {
      k := |u| - 1;
      assert u[k..] == [DigitChar(0)];
    } else {
      CanonicalDigits(u[k..]);
    }
    zeros, n := u[..k], DigitsValue(u[k..]);
    assert u == zeros + u[k..];
  }

  /** The sign `Unsigned` takes off the front of an integer literal. */
  lemma SignOf(s: string) returns (sign: string)
    requires IsIntLiteral(s)
    ensures IsSign(sign) && s == sign + Unsigned(s)
  {
    if s[0] == '+' || s[0] == '-' {
      sign := [s[0]];
      assert s == sign + s[1..];
    } else {
      sign := "";
      assert s == sign + s;
    }
  }

  /** Cuts an integer literal into its sign, its leading zeros and the canonical
      digits of its value. */
  lemma LiteralParts(s: string) returns (sign: string, zeros: string, n: nat)
    requires IsIntLiteral(s)
    ensures IsSign(sign) && AllZeros(zeros)
    ensures s == sign + zeros + ShowNat(n)
  {
    sign := SignOf(s);
    zeros, n := CanonicalSplit(Unsigned(s));
    ConcatAssoc(sign, zeros, ShowNat(n));
  }

  /** Every string `int()` accepts here is an optional sign, some leading zeros
      and the canonical digits of a number, and parses to that number with the
      sign applied: together with `ParseIntValue`, this fixes the value of
      `ParseInt` on all of its inputs. */
  lemma ParseIntForm(s: string)
    requires IsIntLiteral(s)
    ensures exists sign, zeros, n: nat | IsSign(sign) && AllZeros(zeros) ::
      s == sign + zeros + ShowNat(n) && ParseInt(s) == Some(if sign == "-" then -(n as int) else n as int)
  {
    var sign, zeros, n := LiteralParts(s);
    ParseIntValue(sign, zeros, n);
  }

  /** `int(str(n)) == n` for every integer, negative ones included. */
  lemma ParseShowInt(n: int)
    ensures IsIntLiteral(ShowInt(n))
    ensures ParseInt(ShowInt(n)) == Some(n)
  {
    if n < 0 {
      assert Unsigned(ShowInt(n)) == ShowNat(-n);
    } else {
      assert Unsigned(ShowInt(n)) == ShowNat(n);
    }
  }

  /** The decimal text of an integer has no whitespace to strip. */
  lemma StripShowInt(n: int)
    ensures Strip(ShowInt(n)) == ShowInt(n)
  {
    var r := ShowInt(n);
    assert !IsSpace(r[0]);
    assert IsDigit(r[|r| - 1]);
    StripTrimmed(r);
  }

  /** `int(str(n).strip()) == n`. */
  lemma ReadBackInt(n: int)
    ensures ParseInt(Strip(ShowInt(n))) == Some(n)
  {
    StripShowInt(n);
    ParseShowInt(n);
  }
}
