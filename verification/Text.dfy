/**
 Characters, decimal numerals and whitespace trimming, as the argument parser uses them through
 Go's `regexp`, `strconv.ParseInt` and `strings.TrimSpace`.
 */
module Text {
  import opened Wrappers
  import opened Machine

  // ----- character classes -----

  /** `Space` is `\s`, `Digit` is `\d` and `Alnum` is `[a-z0-9]` in Go's regular expressions. */
  datatype CharClass = Space | Digit | Alnum

  predicate InClass(cc: CharClass, c: char) {
    match cc
    case Space => c == ' ' || c == '\t' || c == '\n' || c == '\r' || c as int == 0x0C
    case Digit => '0' <= c <= '9'
    case Alnum => 'a' <= c <= 'z' || '0' <= c <= '9'
  }

  predicate AllIn(cc: CharClass, s: string) {
    forall i :: 0 <= i < |s| ==> InClass(cc, s[i])
  }

  /** Length of the longest prefix of `s` made of characters of the class. */
  function Span(cc: CharClass, s: string): (n: nat)
    ensures n <= |s| && AllIn(cc, s[..n])
    ensures n < |s| ==> !InClass(cc, s[n])
  {
    if s != [] && InClass(cc, s[0]) then
      var n := Span(cc, s[1..]);
      assert s[..n + 1] == [s[0]] + s[1..][..n];
      1 + n
    else 0
  }

  lemma {:induction false} SpanUnique(cc: CharClass, t: string, rest: string)
    requires AllIn(cc, t)
    requires rest == [] || !InClass(cc, rest[0])
    ensures Span(cc, t + rest) == |t|
  {
    if t == [] {
      assert t + rest == rest;
    } else {
      SpanUnique(cc, t[1..], rest);
      assert (t + rest)[1..] == t[1..] + rest;
      assert InClass(cc, (t + rest)[0]);
    }
  }

  /** The three classes, character by character. */
  lemma ClassTable(c: char)
    ensures InClass(Space, c) <==> c in " \t\n\r\U{0C}"
    ensures InClass(Digit, c) <==> c in "0123456789"
    ensures InClass(Alnum, c) <==> c in "abcdefghijklmnopqrstuvwxyz0123456789"
  {
    CharsFrom("0123456789", '0', c);
    CharsFrom("abcdefghijklmnopqrstuvwxyz", 'a', c);
    assert "abcdefghijklmnopqrstuvwxyz0123456789" == "abcdefghijklmnopqrstuvwxyz" + "0123456789";
  }

  /** Membership in a run of consecutive characters is a range test. */
  lemma CharsFrom(run: string, first: char, c: char)
    requires forall i :: 0 <= i < |run| ==> run[i] as int == first as int + i
    ensures c in run <==> first as int <= c as int < first as int + |run|
  {
    var i := c as int - first as int;
    if 0 <= i < |run| {
      assert run[i] == c;
    }
  }

  // ----- decimal numerals -----

  function DigitValue(c: char): nat
    requires InClass(Digit, c)
  {
    c as int - '0' as int
  }

  function DigitsValue(s: string): nat
    requires AllIn(Digit, s)
  {
    if s == [] then 0 else 10 * DigitsValue(s[..|s| - 1]) + DigitValue(s[|s| - 1])
  }

  /** The language of `-?\d+`. */
  predicate IsNumeral(s: string) {
    if s != [] && s[0] == '-' then |s| > 1 && AllIn(Digit, s[1..]) else |s| > 0 && AllIn(Digit, s)
  }

  function NumeralValue(s: string): int
    requires IsNumeral(s)
  {
    if s[0] == '-' then -(DigitsValue(s[1..]) as int) else DigitsValue(s)
  }

  /** `strconv.ParseInt(s, 10, 64)` on a string that is already known to be a numeral. */
  function ParseInt64(s: string): Option<s64>
    requires IsNumeral(s)
  {
    var v := NumeralValue(s);
    if -0x8000_0000_0000_0000 <= v < 0x8000_0000_0000_0000 then Some(v) else None
  }

  function Digits(n: nat): (s: string)
    ensures |s| > 0 && AllIn(Digit, s)
  {
    var d := (n % 10 + '0' as int) as char;
    if n < 10 then [d] else Digits(n / 10) + [d]
  }

  /** Canonical decimal spelling of an integer. */
  function Numeral(x: int): (s: string)
    ensures IsNumeral(s)
  {
    if x < 0 then
      assert (['-'] + Digits(-x))[1..] == Digits(-x);
      ['-'] + Digits(-x)
    else
      assert Digits(x)[0] != '-' by { assert InClass(Digit, Digits(x)[0]); }
      Digits(x)
  }

  lemma {:induction false} DigitsRoundTrip(n: nat)
    ensures DigitsValue(Digits(n)) == n
  {
    var s := Digits(n);
    if n < 10 {
      assert s[..0] == [];
    } else {
      DigitsRoundTrip(n / 10);
      assert s[..|s| - 1] == Digits(n / 10);
    }
  }

  lemma NumeralRoundTrip(x: int)
    ensures NumeralValue(Numeral(x)) == x
  {
    DigitsRoundTrip(Abs(x));
    if x < 0 {
      assert Numeral(x)[1..] == Digits(-x);
    } else {
      assert InClass(Digit, Digits(x)[0]);
    }
  }

  function Zeros(n: nat): (z: string)
    ensures |z| == n && forall i :: 0 <= i < n ==> z[i] == '0'
  {
    seq(n, _ => '0')
  }

  /** Every string of digits is the spelling of its value after some leading zeros. */
  lemma {:induction false} DigitsExact(s: string) returns (k: nat)
    requires s != [] && AllIn(Digit, s)
    ensures s == Zeros(k) + Digits(DigitsValue(s))
  {
    var n := |s| - 1;
    var init, d := s[..n], s[n];
    assert s == init + [d];
    if n == 0 {
      k := 0;
    } else {
      k := DigitsExact(init);
      SnocDigit(DigitsValue(init), d);
      if DigitsValue(init) == 0 {
        k := k + 1;
        assert Digits(0) == "0";
        assert Zeros(k) == Zeros(k - 1) + "0";
      }
    }
  }

  lemma SnocDigit(v: nat, d: char)
    requires InClass(Digit, d)
    ensures Digits(10 * v + DigitValue(d)) == (if v == 0 then [] else Digits(v)) + [d]
  {
  }

  /** Every numeral is an optional minus, some zeros and the canonical digits of its magnitude. */
  lemma NumeralExactly(s: string) returns (k: nat)
    requires IsNumeral(s)
    ensures s == (if s[0] == '-' then "-" else "") + (Zeros(k) + Digits(Abs(NumeralValue(s))))
    ensures if s[0] == '-' then NumeralValue(s) <= 0 else NumeralValue(s) >= 0
  {
    if s[0] == '-' {
      k := DigitsExact(s[1..]);
      assert s == "-" + s[1..];
    } else {
      k := DigitsExact(s);
    }
  }

  // ----- trimming -----

  /** Unicode White_Space, the set `strings.TrimSpace` removes at both ends. */
  predicate IsUnicodeSpace(c: char) {
    var x := c as int;
    || 0x09 <= x <= 0x0D || x == 0x20 || x == 0x85 || x == 0xA0 || x == 0x1680
    || 0x2000 <= x <= 0x200A || x == 0x2028 || x == 0x2029 || x == 0x202F || x == 0x205F || x == 0x3000
  }

  /** The 25 characters with the Unicode property White_Space. */
  lemma SpaceTable(c: char)
    ensures IsUnicodeSpace(c) <==>
      || c in "\t\n\U{0B}\U{0C}\r \U{85}\U{A0}\U{1680}"
      || c in "\U{2000}\U{2001}\U{2002}\U{2003}\U{2004}\U{2005}\U{2006}\U{2007}\U{2008}\U{2009}\U{200A}"
      || c in "\U{2028}\U{2029}\U{202F}\U{205F}\U{3000}"
  {
    CharsFrom(
      "\U{2000}\U{2001}\U{2002}\U{2003}\U{2004}\U{2005}\U{2006}\U{2007}\U{2008}\U{2009}\U{200A}",
      '\U{2000}', c);
  }

  function TrimLeft(s: string): string {
    if s != [] && IsUnicodeSpace(s[0]) then TrimLeft(s[1..]) else s
  }

  function TrimRight(s: string): string {
    if s != [] && IsUnicodeSpace(s[|s| - 1]) then TrimRight(s[..|s| - 1]) else s
  }

  function TrimSpace(s: string): string {
    TrimRight(TrimLeft(s))
  }

  predicate AllUnicodeSpace(s: string) {
    forall i :: 0 <= i < |s| ==> IsUnicodeSpace(s[i])
  }

  /** No Unicode space at either end (the empty string included). */
  predicate IsTrimmed(s: string) {
    s != [] ==> !IsUnicodeSpace(s[0]) && !IsUnicodeSpace(s[|s| - 1])
  }

  /** TrimSpace removes exactly the outer spaces: its result is the one trimmed core. */
  lemma TrimSpaceUnique(lead: string, core: string, trail: string)
    requires AllUnicodeSpace(lead) && AllUnicodeSpace(trail) && IsTrimmed(core)
    ensures TrimSpace(lead + core + trail) == core
  {
    if core == [] {
      TrimLeftAll(lead + core + trail);
    } else {
      TrimLeftUnique(lead, core + trail);
      assert lead + core + trail == lead + (core + trail);
      TrimRightUnique(core, trail);
    }
  }

  lemma {:induction false} TrimLeftAll(s: string)
    requires AllUnicodeSpace(s)
    ensures TrimLeft(s) == []
  {
    if s != [] {
      TrimLeftAll(s[1..]);
    }
  }

  lemma {:induction false} TrimLeftUnique(lead: string, rest: string)
    requires AllUnicodeSpace(lead) && rest != [] && !IsUnicodeSpace(rest[0])
    ensures TrimLeft(lead + rest) == rest
  {
    if lead == [] {
      assert lead + rest == rest;
    } else {
      TrimLeftUnique(lead[1..], rest);
      assert (lead + rest)[1..] == lead[1..] + rest;
      assert IsUnicodeSpace((lead + rest)[0]);
    }
  }

  lemma {:induction false} TrimRightUnique(rest: string, trail: string)
    requires AllUnicodeSpace(trail) && rest != [] && !IsUnicodeSpace(rest[|rest| - 1])
    ensures TrimRight(rest + trail) == rest
  {
    if trail == [] {
      assert rest + trail == rest;
    } else {
      var s := rest + trail;
      TrimRightUnique(rest, trail[..|trail| - 1]);
      assert s[..|s| - 1] == rest + trail[..|trail| - 1];
      assert s[|s| - 1] == trail[|trail| - 1];
    }
  }
}
