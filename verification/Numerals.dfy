// The scalar texts of cdup/src/vm.py: Python's int(text, 0), then float, then the text
// itself, and the integers it reads back.  What float accepts is a parameter.
module Numerals {
  import opened Wrappers
  import opened Initializers
  import opened InitializerLaws

  datatype Scalar = IntValue(n: int) | FloatValue(r: real) | TextValue(text: string)

  // ---- int(text, 0) -------------------------------------------------------------------------------------

  const NO_DIGIT := 99

  function DigitOf(c: char): nat {
    if '0' <= c <= '9' then c as int - '0' as int
    else if 'a' <= c <= 'z' then c as int - 'a' as int + 10
    else if 'A' <= c <= 'Z' then c as int - 'A' as int + 10
    else NO_DIGIT
  }

  // Digits of a base, with single underscores allowed between them.
  function Numeral(s: string, base: nat): Option<nat> {
    if s == [] then None
    else
      var m := |s| - 1;
      var d := DigitOf(s[m]);
      if d >= base then None
      else if m == 0 then Some(d)
      else
        match Numeral(if m > 1 && s[m - 1] == '_' then s[..m - 1] else s[..m], base)
        case None => None
        case Some(v) => Some(v * base + d)
  }

  // A prefix may be followed by one underscore.
  function Prefixed(s: string, base: nat): Option<nat> {
    Numeral(if s != [] && s[0] == '_' then s[1..] else s, base)
  }

  // Without a prefix, a leading zero is accepted in zero alone.
  function Unsigned(s: string): Option<nat> {
    if |s| >= 2 && s[0] == '0' && s[1] in "xX" then Prefixed(s[2..], 16)
    else if |s| >= 2 && s[0] == '0' && s[1] in "oO" then Prefixed(s[2..], 8)
    else if |s| >= 2 && s[0] == '0' && s[1] in "bB" then Prefixed(s[2..], 2)
    else if s != [] && s[0] == '0' && Numeral(s, 10) != Some(0) then None
    else Numeral(s, 10)
  }

  function Signed(s: string): Option<int> {
    if s != [] && s[0] in "+-" then
      match Unsigned(s[1..])
      case None => None
      case Some(v) => Some(if s[0] == '-' then 0 - v as int else v as int)
    else
      match Unsigned(s)
      case None => None
      case Some(v) => Some(v)
  }

  function ReadInt(s: string): Option<int> { Signed(Strip(s)) }

  // ---- The two readers ----------------------------------------------------------------------------------

  // An element of a list.
  function ReadElement(s: string, float: string -> Option<real>): Scalar {
    if ReadInt(s).Some? then IntValue(ReadInt(s).value)
    else if float(s).Some? then FloatValue(float(s).value)
    else TextValue(s)
  }

  // An initialiser without braces: quotes are dropped.
  function ReadPlain(s: string, float: string -> Option<real>): Scalar {
    match ReadElement(s, float)
    case TextValue(t) => if t != [] && t[0] == '"' then TextValue(Inner(t)) else TextValue(t)
    case v => v
  }

  function ElementReader(float: string -> Option<real>): string -> Scalar { s => ReadElement(s, float) }

  function PlainReader(float: string -> Option<real>): string -> Scalar { s => ReadPlain(s, float) }

  // ---- Printing integers --------------------------------------------------------------------------------

  function DigitChar(d: nat): char
    requires d < 10
  {
    ('0' as int + d) as char
  }

  function ShowNat(n: nat): string {
    (if n < 10 then [] else ShowNat(n / 10)) + [DigitChar(n % 10)]
  }

  function ShowInt(n: int): string { if n < 0 then "-" + ShowNat(-n) else ShowNat(n) }

  function Show(v: Scalar): string {
    match v
    case IntValue(n) => ShowInt(n)
    case FloatValue(_) => []   // floats are not printed here
    case TextValue(t) => t
  }

  predicate DecimalText(s: string) { s != [] && forall i :: 0 <= i < |s| ==> '0' <= s[i] <= '9' }

  lemma {:induction false} ShownDigits(n: nat)
    ensures DecimalText(ShowNat(n)) && (n > 0 ==> ShowNat(n)[0] != '0') && (n == 0 ==> ShowNat(n) == "0")
  {
    if n >= 10 {
      ShownDigits(n / 10);
    }
  }

  lemma {:induction false} ShownNumeral(n: nat)
    ensures Numeral(ShowNat(n), 10) == Some(n)
  {
    var s, m := ShowNat(n), |ShowNat(n)| - 1;
    assert DigitOf(s[m]) == n % 10;
    if n >= 10 {
      ShownDigits(n / 10);
      ShownNumeral(n / 10);
      assert s[..m] == ShowNat(n / 10) && s[m - 1] != '_';
    }
  }

  // A printed natural number is read as a plain decimal: it has no base prefix, and no
  // leading zero unless it is zero.
  lemma ShownUnsigned(n: nat)
    ensures Unsigned(ShowNat(n)) == Some(n)
  {
    hide Numeral;
    ShownDigits(n);
    ShownNumeral(n);
  }

  lemma ShownIsTrimmed(n: int)
    ensures Trimmed(ShowInt(n)) && ShowInt(n) != []
    ensures forall i :: 0 <= i < |ShowInt(n)| ==> Ordinary(ShowInt(n)[i])
  {
    ShownDigits(if n < 0 then -n else n);
  }

  // int(str(n), 0) == n
  lemma IntIsRead(n: int)
    ensures ReadInt(ShowInt(n)) == Some(n)
  {
    hide Unsigned, ShowNat, Strip;
    ShownIsTrimmed(n);
    TrimmedStays(ShowInt(n));
    ShownUnsigned(if n < 0 then -n else n);
    ShownDigits(if n < 0 then -n else n);
    if n < 0 {
      assert ("-" + ShowNat(-n))[1..] == ShowNat(-n);
    }
  }

  // ---- Nested lists of integers -------------------------------------------------------------------------

  predicate AllInts(v: Init<Scalar>) {
    match v
    case Scalar(x) => x.IntValue?
    case Nested(items) => forall i :: 0 <= i < |items| ==> AllInts(items[i])
  }

  lemma {:induction false} IntsReadBack(v: Init<Scalar>, float: string -> Option<real>)
    requires AllInts(v)
    ensures ReadsBack(v, Show, ElementReader(float))
  {
    match v
    case Scalar(x) =>
      IntIsRead(x.n);
      ShownIsTrimmed(x.n);
    case Nested(items) =>
      forall i | 0 <= i < |items| ensures ReadsBack(items[i], Show, ElementReader(float)) {
        IntsReadBack(items[i], float);
      }
  }

  // Every nested list of integers, printed as `{...}` text, is read back as that list.
  lemma IntegerListIsRead(items: seq<Init<Scalar>>, float: string -> Option<real>)
    requires AllInts(Nested(items))
    ensures ParsedBrace(Text(Printed(Nested(items), Show)), ElementReader(float), PlainReader(float)) == Nested(items)
  {
    IntsReadBack(Nested(items), float);
    PrintedListIsRead(items, Show, ElementReader(float), PlainReader(float));
  }

  // ---- Numerals with a base prefix ----------------------------------------------------------------------

  function DigitIn(d: nat): char
    requires d < 16
  {
    if d < 10 then DigitChar(d) else ('a' as int + (d - 10)) as char
  }

  function ShowIn(n: nat, base: nat): string
    requires 2 <= base <= 16
    decreases n
  {
    (if n < base then [] else ShowIn(n / base, base)) + [DigitIn(n % base)]
  }

  lemma {:induction false} ShownInBase(n: nat, base: nat)
    requires 2 <= base <= 16
    ensures ShowIn(n, base) != [] && ShowIn(n, base)[0] != '_' && Numeral(ShowIn(n, base), base) == Some(n)
    decreases n
  {
    hide Numeral, ShowIn, DigitIn;
    Divided(n, base);
    ShowInIs(n, base);
    DigitIs(n % base);
    if n >= base {
      ShownInBase(n / base, base);
      LastIsDigit(n / base, base);
      OneDigitMore(ShowIn(n / base, base), n / base, base, n % base);
    } else {
      OneDigit(n, base);
    }
  }

  lemma Divided(n: nat, base: nat)
    requires 2 <= base
    ensures n == (n / base) * base + n % base && 0 <= n % base < base
    ensures if n < base then n % base == n else 0 < n / base < n
  {}

  lemma ShowInIs(n: nat, base: nat)
    requires 2 <= base <= 16
    ensures ShowIn(n, base) == if n < base then [DigitIn(n % base)] else ShowIn(n / base, base) + [DigitIn(n % base)]
  {}

  lemma DigitIs(d: nat)
    requires d < 16
    ensures DigitOf(DigitIn(d)) == d && DigitIn(d) != '_'
  {}

  lemma OneDigit(d: nat, base: nat)
    requires d < base <= 16
    ensures Numeral([DigitIn(d)], base) == Some(d)
  {
    DigitIs(d);
  }

  lemma OneDigitMore(front: string, v: nat, base: nat, d: nat)
    requires d < base <= 16 && front != [] && front[|front| - 1] != '_' && Numeral(front, base) == Some(v)
    ensures Numeral(front + [DigitIn(d)], base) == Some(v * base + d)
  {
    hide DigitOf, DigitIn;
    DigitIs(d);
    assert (front + [DigitIn(d)])[..|front|] == front;
  }

  lemma LastIsDigit(n: nat, base: nat)
    requires 2 <= base <= 16
    ensures ShowIn(n, base) != [] && ShowIn(n, base)[|ShowIn(n, base)| - 1] != '_'
  {}

  // "0x1f", "0o17" and "0b101" are read in their bases, in either case, with a sign.
  lemma PrefixedIsRead(n: nat, base: nat, prefix: string, negative: bool)
    requires (base == 16 && prefix in ["0x", "0X"]) || (base == 8 && prefix in ["0o", "0O"])
             || (base == 2 && prefix in ["0b", "0B"])
    ensures Signed((if negative then "-" else "") + prefix + ShowIn(n, base)) ==
            Some(if negative then 0 - n as int else n as int)
  {
    hide Numeral, ShowIn;
    ShownInBase(n, base);
    var s := prefix + ShowIn(n, base);
    assert s[2..] == ShowIn(n, base);
    assert Unsigned(s) == Some(n);
    assert "" + prefix + ShowIn(n, base) == s;
    assert ("-" + prefix + ShowIn(n, base))[1..] == s;
  }

  // ---- Initialisers without braces -----------------------------------------------------------------------

  lemma BracelessIsPlain(before: string, s: string, after: string, float: string -> Option<real>)
    requires Spaces(before) && Spaces(after) && Trimmed(s) && s != [] && s[0] != '{'
    ensures ParsedBrace(before + s + after, ElementReader(float), PlainReader(float)) ==
            Init.Scalar(ReadPlain(s, float))
  {
    hide Strip, ReadPlain;
    StripPads(before, s, after);
    TrimmedStays(s);
  }

  // Without braces an integer is read as itself, and a quoted text without its quotes.
  lemma PlainIsRead(before: string, after: string, n: int, w: string, float: string -> Option<real>)
    requires Spaces(before) && Spaces(after) && float("\"" + w + "\"") == None
    ensures ParsedBrace(before + ShowInt(n) + after, ElementReader(float), PlainReader(float)) ==
            Init.Scalar(IntValue(n))
    ensures ParsedBrace(before + ("\"" + w + "\"") + after, ElementReader(float), PlainReader(float)) ==
            Init.Scalar(TextValue(w))
  {
    hide ParsedBrace, ShowNat, Strip, Unsigned, ElementReader, PlainReader;
    ShownIsTrimmed(n);
    IntIsRead(n);
    ShownDigits(if n < 0 then -n else n);
    BracelessIsPlain(before, ShowInt(n), after, float);
    var q := "\"" + w + "\"";
    assert q[0] == '"' && q[|q| - 1] == '"';
    BracelessIsPlain(before, q, after, float);
    QuotedIsNoInt(w);
    assert Inner(q) == w;
  }

  lemma QuotedIsNoInt(w: string)
    ensures ReadInt("\"" + w + "\"") == None
  {
    var q := "\"" + w + "\"";
    TrimmedStays(q);
    assert q[0] == '"' && q[|q| - 1] == '"';
  }
}
