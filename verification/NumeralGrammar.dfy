// What int(text, 0) accepts in cdup/src/vm.py, as a grammar of digits, prefixes and signs.
module NumeralGrammar {
  import opened Wrappers
  import opened Initializers
  import opened Numerals

  // ---- Digits -----------------------------------------------------------------------------

  predicate Together(a: char, b: char) {
    ('0' <= a && b <= '9') || ('a' <= a && b <= 'z') || ('A' <= a && b <= 'Z')
  }

  // Digits count up from 0, and letters of either case from 10; nothing else is a digit.
  lemma DigitsAre(c: char)
    ensures DigitOf('0') == 0 && DigitOf('a') == 10 && DigitOf('A') == 10
    ensures DigitOf(c) < 36 <==> '0' <= c <= '9' || 'a' <= c <= 'z' || 'A' <= c <= 'Z'
    ensures forall b: char :: b as int + 1 == c as int && Together(b, c) ==> DigitOf(c) == DigitOf(b) + 1
    ensures DigitOf(c) >= 36 ==> DigitOf(c) == NO_DIGIT
  {}

  // A digit, perhaps behind an underscore.
  datatype Digit = Digit(c: char, under: bool)

  function Shown(ds: seq<Digit>): string {
    if ds == [] then []
    else
      var last := ds[|ds| - 1];
      Shown(ds[..|ds| - 1]) + (if last.under then "_" else "") + [last.c]
  }

  function Worth(ds: seq<Digit>, base: nat): nat {
    if ds == [] then 0 else Worth(ds[..|ds| - 1], base) * base + DigitOf(ds[|ds| - 1].c)
  }

  predicate OfBase(ds: seq<Digit>, base: nat) {
    ds != [] && forall k :: 0 <= k < |ds| ==> DigitOf(ds[k].c) < base
  }

  // ---- Numerals ---------------------------------------------------------------------------

  lemma ShownNothing()
    ensures Shown([]) == []
  {}

  // One digit more, with or without an underscore before it.
  lemma OneMoreRead(front: string, base: nat, v: nat, c: char)
    requires base <= 36 && DigitOf(c) < base && Numeral(front, base) == Some(v)
    requires front != [] && front[|front| - 1] != '_'
    ensures Numeral(front + [c], base) == Some(v * base + DigitOf(c))
    ensures Numeral(front + "_" + [c], base) == Some(v * base + DigitOf(c))
  {
    hide DigitOf;
    var s, u := front + [c], front + "_" + [c];
    assert s[..|s| - 1] == front && s[|s| - 2] == front[|front| - 1];
    assert u[..|u| - 2] == front && u[|u| - 2] == '_';
  }

  lemma OneRead(base: nat, c: char)
    requires DigitOf(c) < base
    ensures Numeral([c], base) == Some(DigitOf(c))
  {}

  lemma {:induction false} DigitsAreRead(ds: seq<Digit>, base: nat)
    requires base <= 36 && OfBase(ds, base) && !ds[0].under
    ensures Shown(ds) != [] && Shown(ds)[|Shown(ds)| - 1] != '_'
    ensures Numeral(Shown(ds), base) == Some(Worth(ds, base))
  {
    hide DigitOf, Numeral;
    var n := |ds| - 1;
    NoUnderscore(ds[n].c, base);
    ShownNothing();
    if n == 0 {
      assert ds[..0] == [];
      assert Shown(ds) == [] + "" + [ds[0].c] == [ds[0].c];
      OneRead(base, ds[0].c);
    } else {
      DigitsAreRead(ds[..n], base);
      OneMoreRead(Shown(ds[..n]), base, Worth(ds[..n], base), ds[n].c);
      assert Shown(ds[..n]) + "" == Shown(ds[..n]);
    }
  }

  lemma NoUnderscore(c: char, base: nat)
    requires base <= 36 && DigitOf(c) < base
    ensures c != '_'
  {}

  lemma NumeralUnfolds(s: string, base: nat)
    requires Numeral(s, base).Some?
    ensures s != [] && DigitOf(s[|s| - 1]) < base
    ensures |s| == 1 ==> Numeral(s, base) == Some(DigitOf(s[0]))
    ensures |s| > 1 ==>
              var m := |s| - 1;
              var rest := if m > 1 && s[m - 1] == '_' then s[..m - 1] else s[..m];
              Numeral(rest, base).Some? && Numeral(s, base) == Some(Numeral(rest, base).value * base + DigitOf(s[m]))
  {
    hide DigitOf;
  }

  lemma {:induction false} ReadIsDigits(s: string, base: nat) returns (ds: seq<Digit>)
    requires base <= 36 && Numeral(s, base).Some?
    ensures OfBase(ds, base) && !ds[0].under && Shown(ds) == s && Worth(ds, base) == Numeral(s, base).value
    decreases |s|
  {
    hide DigitOf, Numeral;
    NumeralUnfolds(s, base);
    var m := |s| - 1;
    if m == 0 {
      ds := [Digit(s[0], false)];
      assert ds[..0] == [] && Shown([]) == [] && Worth([], base) == 0;
      assert s == [s[0]];
    } else {
      var under := m > 1 && s[m - 1] == '_';
      var front := ReadIsDigits(if under then s[..m - 1] else s[..m], base);
      ds := front + [Digit(s[m], under)];
      assert ds[..|ds| - 1] == front;
      assert s == s[..m] + [s[m]];
      if under { assert s[..m] == s[..m - 1] + "_"; }
    }
  }

  // The digits ds spell v, none of them behind an underscore at the start.
  ghost predicate IsNumeral(ds: seq<Digit>, base: nat, s: string, v: nat) {
    OfBase(ds, base) && !ds[0].under && Shown(ds) == s && Worth(ds, base) == v
  }

  // A text is read in a base exactly when it is a list of its digits, with at most one
  // underscore before each but the first.
  lemma NumeralIs(s: string, base: nat, v: nat)
    requires base <= 36
    ensures Numeral(s, base) == Some(v) <==> exists ds :: IsNumeral(ds, base, s, v)
  {
    hide Numeral, Shown, Worth;
    if Numeral(s, base) == Some(v) {
      var ds := ReadIsDigits(s, base);
      assert IsNumeral(ds, base, s, v);
    }
    if ds: seq<Digit> :| IsNumeral(ds, base, s, v) {
      DigitsAreRead(ds, base);
    }
  }

  // ---- Prefixes and signs -------------------------------------------------------------------

  // Digits behind a prefix, which may end in an underscore.
  ghost predicate IsBehindPrefix(ds: seq<Digit>, base: nat, s: string, v: nat) {
    OfBase(ds, base) && Shown(ds) == s && Worth(ds, base) == v
  }

  predicate PrefixOf(x: char, base: nat) {
    (base == 16 && (x == 'x' || x == 'X'))
    || (base == 8 && (x == 'o' || x == 'O'))
    || (base == 2 && (x == 'b' || x == 'B'))
  }

  // s spells v in a base that a prefix announces.
  ghost predicate InBase(s: string, v: nat) {
    |s| >= 2 && s[0] == '0' && exists ds, base :: PrefixOf(s[1], base) && IsBehindPrefix(ds, base, s[2..], v)
  }

  // s spells v in decimal; only zero starts with 0.
  ghost predicate InDecimal(s: string, v: nat) {
    (exists ds :: IsNumeral(ds, 10, s, v)) && (s != [] && s[0] == '0' ==> v == 0)
  }

  lemma {:induction false} FirstUnder(ds: seq<Digit>, base: nat)
    requires ds != [] && !ds[0].under
    ensures var under := ds[0 := Digit(ds[0].c, true)];
            Shown(under) == "_" + Shown(ds) && Worth(under, base) == Worth(ds, base)
  {
    hide DigitOf;
    var n := |ds| - 1;
    var under := ds[0 := Digit(ds[0].c, true)];
    if n == 0 {
      assert ds[..0] == [] && under[..0] == [];
    } else {
      assert under[..n] == ds[..n][0 := Digit(ds[0].c, true)];
      FirstUnder(ds[..n], base);
    }
  }

  lemma {:induction false} ShownStarts(ds: seq<Digit>)
    requires ds != []
    ensures Shown(ds) != [] && Shown(ds)[0] == if ds[0].under then '_' else ds[0].c
  {
    if |ds| > 1 {
      ShownStarts(ds[..|ds| - 1]);
    } else {
      assert ds[..0] == [];
    }
  }

  lemma PrefixedIs(s: string, base: nat, v: nat)
    requires base <= 36
    ensures Prefixed(s, base) == Some(v) <==> exists ds :: IsBehindPrefix(ds, base, s, v)
  {
    hide Numeral, Shown, Worth;
    var t := if s != [] && s[0] == '_' then s[1..] else s;
    NumeralIs(t, base, v);
    if ds: seq<Digit> :| IsNumeral(ds, base, t, v) {
      if t == s {
        assert IsBehindPrefix(ds, base, s, v);
      } else {
        FirstUnder(ds, base);
        assert s == "_" + t;
        assert IsBehindPrefix(ds[0 := Digit(ds[0].c, true)], base, s, v);
      }
    }
    if ds: seq<Digit> :| IsBehindPrefix(ds, base, s, v) {
      ShownStarts(ds);
      if ds[0].under {
        var bare := ds[0 := Digit(ds[0].c, false)];
        FirstUnder(bare, base);
        assert bare[0 := Digit(bare[0].c, true)] == ds;
        assert IsNumeral(bare, base, t, v);
      } else {
        NoUnderscore(ds[0].c, base);
        assert IsNumeral(ds, base, t, v);
      }
    }
  }

  lemma {:induction false} ShownChars(ds: seq<Digit>, base: nat, k: nat)
    requires OfBase(ds, base) && k < |Shown(ds)|
    ensures Shown(ds)[k] == '_' || DigitOf(Shown(ds)[k]) < base
    decreases |ds|
  {
    hide DigitOf;
    var front := ds[..|ds| - 1];
    if k < |Shown(front)| {
      ShownNothing();
      if front != [] { ShownChars(front, base, k); }
      assert Shown(ds)[k] == Shown(front)[k];
    }
  }

  // A text with a prefix is no decimal.
  lemma PrefixIsNoDecimal(s: string, base: nat, v: nat)
    requires |s| >= 2 && PrefixOf(s[1], base)
    ensures !InDecimal(s, v)
  {
    hide Shown, Worth;
    if ds: seq<Digit> :| IsNumeral(ds, 10, s, v) { ShownChars(ds, 10, 1); }
  }

  // An unsigned text is read exactly as the decimal or the prefixed numeral it spells.
  lemma UnsignedIs(s: string, v: nat)
    ensures Unsigned(s) == Some(v) <==> InDecimal(s, v) || InBase(s, v)
  {
    hide Numeral, Prefixed, IsNumeral, IsBehindPrefix;
    NumeralIs(s, 10, v);
    NumeralIs(s, 10, 0);
    if |s| >= 2 && s[0] == '0' {
      PrefixedIs(s[2..], 16, v);
      PrefixedIs(s[2..], 8, v);
      PrefixedIs(s[2..], 2, v);
      if PrefixOf(s[1], 16) { PrefixIsNoDecimal(s, 16, v); }
      if PrefixOf(s[1], 8) { PrefixIsNoDecimal(s, 8, v); }
      if PrefixOf(s[1], 2) { PrefixIsNoDecimal(s, 2, v); }
    }
  }

  ghost predicate Spells(s: string, v: int) { v >= 0 && (InDecimal(s, v) || InBase(s, v)) }

  // int(text, 0): white space around, then a sign or none, then an unsigned numeral.
  lemma ReadIntIs(s: string, v: int)
    ensures var t := Strip(s);
            ReadInt(s) == Some(v) <==>
            Spells(t, v)
            || (t != [] && t[0] == '+' && Spells(t[1..], v))
            || (t != [] && t[0] == '-' && Spells(t[1..], -v))
  {
    hide Unsigned, InDecimal, InBase, Strip;
    var t := Strip(s);
    if v >= 0 { UnsignedIs(t, v); }
    if t != [] {
      if v >= 0 { UnsignedIs(t[1..], v); }
      if v <= 0 { UnsignedIs(t[1..], -v); }
      if v >= 0 && (t[0] == '+' || t[0] == '-') { SignIsNoDigit(t, v); }
    }
  }

  lemma SignIsNoDigit(t: string, v: nat)
    requires t != [] && (t[0] == '+' || t[0] == '-')
    ensures !InDecimal(t, v) && !InBase(t, v)
  {
    hide Shown, Worth;
    if ds: seq<Digit> :| IsNumeral(ds, 10, t, v) { ShownChars(ds, 10, 0); }
  }
}
