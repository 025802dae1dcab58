/** ulltoa and strrev: numbers written out in radix 8, 10 and 16. */
module Numerals {
  import opened Powers
  import opened Bits

  predicate Supported(radix: int) { radix == 8 || radix == 10 || radix == 16 }

  function DigitChar(rem: nat): char
    requires rem < 16
  {
    if rem > 9 then (rem - 10) as char + 'a' else rem as char + '0'
  }

  function DigitValue(c: char): nat
  {
    if '0' <= c <= '9' then (c - '0') as nat else if 'a' <= c <= 'f' then (c - 'a') as nat + 10 else 0
  }

  predicate IsDigit(c: char, radix: nat)
  {
    ('0' <= c <= '9' || 'a' <= c <= 'f') && DigitValue(c) < radix
  }

  /** The reader: what a string of digits stands for. */
  function Parse(s: string, radix: nat): nat
  {
    if s == [] then 0 else Parse(s[..|s| - 1], radix) * radix + DigitValue(s[|s| - 1])
  }

  /** Digits only, and no leading zero except in "0" itself. */
  predicate Canonical(s: string, radix: nat)
  {
    s != [] && (s[0] == '0' ==> |s| == 1) && forall i :: 0 <= i < |s| ==> IsDigit(s[i], radix)
  }

  function Quot(v: nat, radix: nat): (q: nat)
    requires radix >= 2
    ensures v > 0 ==> q < v
  {
    QuotSmaller(v, radix);
    v / radix
  }

  lemma QuotSmaller(v: nat, radix: nat)
    requires radix >= 2
    ensures v > 0 ==> v / radix < v
  {
    if v > 0 {
      assert v * radix == v + v * (radix - 1) && v * (radix - 1) > 0;
      DivBelow(v, radix, v);
    }
  }

  function Rem(v: nat, radix: nat): (r: nat)
    requires radix >= 2
    ensures r < radix
  {
    v % radix
  }

  /** The digits of a positive value, most significant first; none for zero. */
  function Digits(value: nat, radix: nat): string
    requires 2 <= radix <= 16
  {
    if value == 0 then [] else Digits(Quot(value, radix), radix) + [DigitChar(Rem(value, radix))]
  }

  function Numeral(value: nat, radix: nat): string
    requires 2 <= radix <= 16
  {
    if value == 0 then "0" else Digits(value, radix)
  }

  /** The digits are those of the usual notation, in lower case. */
  lemma DigitTable(d: nat)
    requires d < 16
    ensures DigitChar(d) == "0123456789abcdef"[d]
  {
  }

  lemma DigitReads(d: nat, radix: nat)
    requires d < radix <= 16
    ensures IsDigit(DigitChar(d), radix) && DigitValue(DigitChar(d)) == d && (DigitChar(d) == '0' <==> d == 0)
  {
  }

  lemma DigitWrites(c: char, radix: nat)
    requires IsDigit(c, radix) && radix <= 16
    ensures DigitValue(c) < radix && DigitChar(DigitValue(c)) == c && (c == '0' <==> DigitValue(c) == 0)
  {
  }

  lemma ParseSnoc(s: string, c: char, radix: nat)
    ensures Parse(s + [c], radix) == Parse(s, radix) * radix + DigitValue(c)
  {
    assert (s + [c])[..|s|] == s;
  }

  lemma CanonicalSnoc(s: string, c: char, radix: nat)
    requires IsDigit(c, radix)
    ensures s == [] ==> Canonical(s + [c], radix)
    ensures s != [] && s[0] != '0' && Canonical(s, radix) ==> Canonical(s + [c], radix)
  {
  }

  lemma QuotRem(v: nat, radix: nat)
    requires radix >= 2
    ensures Quot(v, radix) * radix + Rem(v, radix) == v
  {
  }

  lemma ParseEmpty(radix: nat)
    ensures Parse("", radix) == 0 && Digits(0, 16) == ""
  {
  }

  lemma {:induction false} DigitsParse(value: nat, radix: nat)
    requires 2 <= radix <= 16
    ensures var s := Digits(value, radix);
            Parse(s, radix) == value && if value == 0 then s == [] else Canonical(s, radix) && s[0] != '0'
  {
    hide DigitChar, DigitValue, IsDigit, Canonical, Parse, Quot, Rem;
    if value == 0 {
      ParseEmpty(radix);
    } else {
      var q, r := Quot(value, radix), Rem(value, radix);
      QuotRem(value, radix);
      DigitsParse(q, radix);
      DigitReads(r, radix);
      ParseSnoc(Digits(q, radix), DigitChar(r), radix);
      CanonicalSnoc(Digits(q, radix), DigitChar(r), radix);
    }
  }

  /** Parsing what is written gives the value back, and nothing superfluous is written. */
  lemma NumeralParses(value: nat, radix: nat)
    requires Supported(radix)
    ensures Canonical(Numeral(value, radix), radix) && Parse(Numeral(value, radix), radix) == value
  {
    if value > 0 {
      DigitsParse(value, radix);
    } else {
      assert "0"[..0] == [];
    }
  }

  lemma CanonicalFront(s: string, radix: nat)
    requires Canonical(s, radix) && s[0] != '0'
    ensures var front, c := s[..|s| - 1], s[|s| - 1];
            s == front + [c] && IsDigit(c, radix) && (front != [] ==> Canonical(front, radix) && front[0] != '0')
  {
  }

  lemma {:induction false} ParseDigits(s: string, radix: nat)
    requires 2 <= radix <= 16 && Canonical(s, radix) && s[0] != '0'
    ensures Parse(s, radix) > 0 && Digits(Parse(s, radix), radix) == s
  {
    hide DigitChar, DigitValue, IsDigit, Canonical, Parse;
    CanonicalFront(s, radix);
    var front, c := s[..|s| - 1], s[|s| - 1];
    var v, d := Parse(front, radix), DigitValue(c);
    DigitWrites(c, radix);
    ParseSnoc(front, c, radix);
    if front != [] {
      ParseDigits(front, radix);
    } else {
      ParseEmpty(radix);
    }
    QuotientRemainder(v * radix + d, radix, v, d);
  }

  /** And every canonical numeral is written for the value it stands for. */
  lemma ParseNumeral(s: string, radix: nat)
    requires Supported(radix) && Canonical(s, radix)
    ensures Numeral(Parse(s, radix), radix) == s
  {
    if s[0] != '0' {
      ParseDigits(s, radix);
    } else {
      assert s == "0" && s[..0] == [];
    }
  }

  // ---- how many digits ----

  lemma {:induction false} DigitsLength(value: nat, radix: nat, n: nat)
    requires 2 <= radix <= 16 && value < Pow(radix, n)
    ensures |Digits(value, radix)| <= n
  {
    hide Rem, DigitChar;
    if value > 0 {
      DivBelow(value, radix, Pow(radix, n - 1));
      DigitsLength(Quot(value, radix), radix, n - 1);
    }
  }

  lemma RadixPowers()
    ensures Pow(8, 22) >= WORD && Pow(10, 20) >= WORD && Pow(16, 16) >= WORD
  {
    assert Pow(8, 4) == 0x1000;
    assert Pow(8, 8) == 0x100_0000;
    assert Pow(8, 12) == 0x10_0000_0000;
    assert Pow(8, 16) == 0x1_0000_0000_0000;
    assert Pow(8, 20) == 0x1000_0000_0000_0000;
    assert Pow(10, 4) == 10000;
    assert Pow(10, 8) == 100000000;
    assert Pow(10, 12) == 1000000000000;
    assert Pow(10, 16) == 10000000000000000;
    assert Pow(16, 4) == 0x1_0000;
    assert Pow(16, 8) == 0x1_0000_0000;
    assert Pow(16, 12) == 0x1_0000_0000_0000;
  }

  /** A 64-bit value has at most 22 octal, 20 decimal or 16 hexadecimal digits. */
  lemma NumeralLength(value: nat, radix: nat)
    requires value < WORD && Supported(radix)
    ensures |Numeral(value, radix)| <= if radix == 8 then 22 else if radix == 10 then 20 else 16
  {
    RadixPowers();
    DigitsLength(value, radix, if radix == 8 then 22 else if radix == 10 then 20 else 16);
  }

  // ---- the loops ----

  /** Each string is the other one read backwards. */
  ghost predicate Mirrors(s: string, t: string)
  {
    |s| == |t| && forall k :: 0 <= k < |s| ==> s[k] == t[|t| - 1 - k]
  }

  lemma MirrorsTwice(s: string, t: string, u: string)
    requires Mirrors(s, t) && Mirrors(t, u)
    ensures s == u
  {
  }

  /** strrev: the first `length` characters, in place. */
  method Strrev(str: array<char>, length: nat)
    requires length <= str.Length
    modifies str
    ensures Mirrors(str[..length], old(str[..length]))
    ensures forall k :: length <= k < str.Length ==> str[k] == old(str[k])
  {
    ghost var t := str[..length];
    if length < 2 {
      return;
    }
    var start, end := 0, length - 1;
    while start < length / 2
      invariant 0 <= start <= length / 2 && end == length - 1 - start
      invariant forall k :: 0 <= k < start ==> str[k] == t[length - 1 - k] && str[length - 1 - k] == t[k]
      invariant forall k :: start <= k <= end ==> str[k] == t[k]
      invariant forall k :: length <= k < str.Length ==> str[k] == old(str[k])
    {
      var tmp := str[start];
      str[start] := str[end];
      str[end] := tmp;
      start, end := start + 1, end - 1;
    }
    forall k | 0 <= k < length ensures str[..length][k] == t[length - 1 - k] {
      if k >= start && k < length - start {
        assert k == length - 1 - k;
      } else if k >= start {
        assert str[length - 1 - (length - 1 - k)] == t[length - 1 - k];
      }
    }
  }

  /** The digit loop of ulltoa: least significant digit first. */
  method WriteDigits(value: nat, str: array<char>, radix: nat) returns (i: nat)
    requires Supported(radix) && |Digits(value, radix)| <= str.Length
    modifies str
    ensures i == |Digits(value, radix)| && Mirrors(str[..i], Digits(value, radix))
    ensures forall k :: i <= k < str.Length ==> str[k] == old(str[k])
  {
    hide Digits;
    ghost var d := Digits(value, radix);
    NoDigits(radix);
    i := 0;
    var v := value;
    while v != 0
      invariant 0 <= v && i <= |d| && d[..|d| - i] == Digits(v, radix)
      invariant forall k :: 0 <= k < i ==> str[k] == d[|d| - 1 - k]
      invariant forall k :: i <= k < str.Length ==> str[k] == old(str[k])
      decreases v
    {
      LoopStep(v, radix);
      var rem := v % radix;
      assert d[..|d| - i - 1] == d[..|d| - i][..|d| - i - 1] && d[|d| - 1 - i] == d[..|d| - i][|d| - 1 - i];
      str[i] := if rem > 9 then (rem - 10) as char + 'a' else rem as char + '0';
      i := i + 1;
      v := v / radix;
    }
  }

  /** ulltoa: the terminated numeral; an unsupported radix gives the empty string. */
  method Ulltoa(value: nat, str: array<char>, radix: int) returns (length: nat)
    requires value < WORD && str.Length >= 1 && (Supported(radix) ==> |Numeral(value, radix)| < str.Length)
    modifies str
    ensures length < str.Length && str[length] == '\0'
    ensures str[..length] == if Supported(radix) then Numeral(value, radix) else ""
    ensures forall k :: length < k < str.Length ==> str[k] == old(str[k])
  {
    hide Digits, Mirrors;
    if radix != 8 && radix != 10 && radix != 16 {
      str[0] := '\0';
      return 0;
    }
    if value == 0 {
      str[0] := '0';
      str[1] := '\0';
      return 1;
    }
    var i := WriteDigits(value, str, radix);
    ghost var written := str[..i];
    str[i] := '\0';
    assert str[..i] == written;
    Strrev(str, i);
    MirrorsTwice(str[..i], written, Digits(value, radix));
    length := i;
  }

  lemma NoDigits(radix: nat)
    requires Supported(radix)
    ensures Digits(0, radix) == ""
  {
  }

  lemma LoopStep(v: nat, radix: nat)
    requires Supported(radix) && v > 0
    ensures var q, rem := v / radix, v % radix;
            && 0 <= rem < radix && 0 <= q < v
            && Digits(v, radix) == Digits(q, radix) + [if rem > 9 then (rem - 10) as char + 'a' else rem as char + '0']
  {
    QuotSmaller(v, radix);
  }
}
