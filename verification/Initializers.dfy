// The brace-initialiser reader of cdup/src/vm.py.  How a scalar's text becomes a value is a
// parameter: `scalar` for a list element, `plain` for an initialiser without braces.
module Initializers {
  datatype Init<T> = Scalar(value: T) | Nested(items: seq<Init<T>>)

  // ---- str.strip ----------------------------------------------------------------------------------------

  predicate Space(c: char) { c in " \t\n\r" || c == 11 as char || c == 12 as char }

  // The ASCII white space of str.strip: tab, line feed, vertical tab, form feed, carriage
  // return and space.
  lemma SpacesAre(c: char)
    ensures Space(c) <==> 9 <= c as int <= 13 || c as int == 32
  {}

  predicate Spaces(s: string) { forall i :: 0 <= i < |s| ==> Space(s[i]) }

  function LStrip(s: string): (r: string)
    ensures |r| <= |s| && (r != [] ==> !Space(r[0]))
  {
    if s != [] && Space(s[0]) then LStrip(s[1..]) else s
  }

  function RStrip(s: string): (r: string)
    ensures |r| <= |s| && (r != [] ==> s != [] && r[0] == s[0] && !Space(r[|r| - 1]))
  {
    if s != [] && Space(s[|s| - 1]) then RStrip(s[..|s| - 1]) else s
  }

  function Strip(s: string): (r: string)
    ensures |r| <= |s|
  {
    RStrip(LStrip(s))
  }

  // A text strip leaves alone.
  predicate Trimmed(s: string) { s == [] || (!Space(s[0]) && !Space(s[|s| - 1])) }

  lemma {:induction false} LStripPad(pad: string, s: string)
    requires Spaces(pad)
    ensures LStrip(pad + s) == LStrip(s)
  {
    if pad == [] {
      assert pad + s == s;
    } else {
      assert (pad + s)[1..] == pad[1..] + s;
      LStripPad(pad[1..], s);
    }
  }

  lemma {:induction false} RStripPad(s: string, pad: string)
    requires Spaces(pad)
    ensures RStrip(s + pad) == RStrip(s)
  {
    if pad == [] {
      assert s + pad == s;
    } else {
      var rest := pad[..|pad| - 1];
      assert (s + pad)[..|s + pad| - 1] == s + rest;
      RStripPad(s, rest);
    }
  }

  lemma {:induction false} LStripBefore(s: string, pad: string)
    requires Spaces(pad)
    ensures LStrip(s + pad) == if LStrip(s) == [] then [] else LStrip(s) + pad
  {
    if s == [] {
      assert s + pad == pad + [];
      LStripPad(pad, []);
    } else {
      assert (s + pad)[1..] == s[1..] + pad;
      LStripBefore(s[1..], pad);
    }
  }

  // Spaces around a text do not matter.
  lemma StripPads(before: string, s: string, after: string)
    requires Spaces(before) && Spaces(after)
    ensures Strip(before + s + after) == Strip(s)
  {
    hide LStrip, RStrip;
    assert before + s + after == before + (s + after);
    LStripPad(before, s + after);
    LStripBefore(s, after);
    RStripPad(LStrip(s), after);
  }

  lemma StripsAgain(s: string)
    ensures Strip(Strip(s)) == Strip(s) && Trimmed(Strip(s))
  {}

  // ---- The reader ---------------------------------------------------------------------------------------

  function Step(c: char): int { if c == '{' then 1 else if c == '}' then -1 else 0 }

  // The texts between the commas at depth zero, stripped; `current` is the text since the
  // last one.  The last is dropped when blank.
  function Split(s: string, depth: int, current: string): (r: seq<string>)
    ensures forall e :: e in r ==> |e| <= |s| + |current|
    decreases |s|
  {
    if s == [] then if Strip(current) == [] then [] else [Strip(current)]
    else if s[0] == ',' && depth == 0 then [Strip(current)] + Split(s[1..], 0, [])
    else Split(s[1..], depth + Step(s[0]), current + [s[0]])
  }

  // The text between the first and the last character.
  function Inner(s: string): string
    requires s != []
  {
    if |s| == 1 then [] else s[1..|s| - 1]
  }

  function ParsedBrace<T>(s: string, scalar: string -> T, plain: string -> T): Init<T>
    decreases |s|, 0
  {
    var t := Strip(s);
    if t == [] || t[0] != '{' then Scalar(plain(t))
    else Nested(ParsedElements(Split(Strip(Inner(t)), 0, []), |Inner(t)|, scalar, plain))
  }

  function ParsedElement<T>(e: string, scalar: string -> T, plain: string -> T): Init<T>
    decreases |e|, 1
  {
    var t := Strip(e);
    if t != [] && t[0] == '{' then ParsedBrace(t, scalar, plain) else Scalar(scalar(t))
  }

  function ParsedElements<T>(es: seq<string>, bound: nat, scalar: string -> T, plain: string -> T): (r: seq<Init<T>>)
    requires forall e :: e in es ==> |e| <= bound
    decreases bound, |es| + 1
  {
    if es == [] then []
    else ParsedElements(es[..|es| - 1], bound, scalar, plain) + [ParsedElement(es[|es| - 1], scalar, plain)]
  }

  lemma SplitUnfolds(inner: string, i: nat, depth: int, current: string)
    requires i < |inner|
    ensures Split(inner[i..], depth, current)
            == if inner[i] == ',' && depth == 0 then [Strip(current)] + Split(inner[i + 1..], 0, [])
               else Split(inner[i + 1..], depth + Step(inner[i]), current + [inner[i]])
  {
    assert inner[i..][1..] == inner[i + 1..];
  }

  lemma SplitEnds(depth: int, current: string)
    ensures Split([], depth, current) == if Strip(current) == [] then [] else [Strip(current)]
  {}

  // The scan of _parse_brace for its elements.
  method SplitElements(inner: string) returns (elements: seq<string>)
    ensures elements == Split(inner, 0, [])
  {
    hide Split, Strip;
    var depth, current, i := 0, "", 0;
    elements := [];
    while i < |inner|
      invariant 0 <= i <= |inner|
      invariant elements + Split(inner[i..], depth, current) == Split(inner, 0, [])
    {
      var c := inner[i];
      SplitUnfolds(inner, i, depth, current);
      if c == '{' {
        depth := depth + 1;
        current := current + [c];
      } else if c == '}' {
        depth := depth - 1;
        current := current + [c];
      } else if c == ',' && depth == 0 {
        assert elements + ([Strip(current)] + Split(inner[i + 1..], 0, []))
               == elements + [Strip(current)] + Split(inner[i + 1..], 0, []);
        elements := elements + [Strip(current)];
        current := "";
      } else {
        current := current + [c];
      }
      i := i + 1;
    }
    SplitEnds(depth, current);
    assert inner[i..] == [] && elements + [] == elements;
    if Strip(current) != [] {
      elements := elements + [Strip(current)];
    }
  }

  // _parse_brace
  method ParseBrace<T>(s: string, scalar: string -> T, plain: string -> T) returns (r: Init<T>)
    ensures r == ParsedBrace(s, scalar, plain)
    decreases |s|
  {
    hide Split, LStrip, RStrip, Strip;
    var t := Strip(s);
    if t == [] || t[0] != '{' {
      return Scalar(plain(t));
    }
    var inner := Strip(Inner(t));
    if inner == [] {
      assert Split([], 0, []) == [] by { SplitEnds(0, []); assert Strip([]) == []; }
      return Nested([]);
    }
    var elements := SplitElements(inner);
    var result := [];
    for k := 0 to |elements|
      invariant result == ParsedElements(elements[..k], |Inner(t)|, scalar, plain)
    {
      var e := Strip(elements[k]);
      assert elements[..k + 1][..k] == elements[..k];
      if e != [] && e[0] == '{' {
        var nested := ParseBrace(e, scalar, plain);
        result := result + [nested];
      } else {
        result := result + [Scalar(scalar(e))];
      }
    }
    assert elements[..|elements|] == elements;
    return Nested(result);
  }
}
