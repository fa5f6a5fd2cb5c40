// Every layout of a nested list is read back as that list.
module InitializerLaws {
  import opened Initializers

  // A text with its structure: padding may stand around every element and brace, and a
  // list may end with a comma.
  datatype Doc =
    | Atom(before: string, text: string, after: string)
    | Braces(before: string, items: seq<Doc>, end: string, after: string)

  function Text(d: Doc): string {
    match d
    case Atom(before, text, after) => before + text + after
    case Braces(before, items, end, after) => before + ("{" + (Body(items) + end) + "}") + after
  }

  function Body(items: seq<Doc>): string {
    if items == [] then []
    else if |items| == 1 then Text(items[0])
    else Text(items[0]) + "," + Body(items[1..])
  }

  predicate Ordinary(c: char) { c != '{' && c != '}' && c != ',' }

  // The ways a list may end after its last element.
  predicate Ending(end: string) { Spaces(end) || (end != [] && end[0] == ',' && Spaces(end[1..])) }

  predicate WellFormed(d: Doc) {
    match d
    case Atom(before, text, after) =>
      Spaces(before) && Spaces(after) && text != [] && Trimmed(text)
      && forall i :: 0 <= i < |text| ==> Ordinary(text[i])
    case Braces(before, items, end, after) =>
      Spaces(before) && Spaces(after) && Ending(end) && (items == [] ==> Spaces(end))
      && forall i :: 0 <= i < |items| ==> WellFormed(items[i])
  }

  // The value a layout stands for.
  function Value<T>(d: Doc, scalar: string -> T): Init<T> {
    match d
    case Atom(_, text, _) => Scalar(scalar(text))
    case Braces(_, items, _, _) => Nested(Values(items, scalar))
  }

  function Values<T>(items: seq<Doc>, scalar: string -> T): seq<Init<T>> {
    if items == [] then [] else [Value(items[0], scalar)] + Values(items[1..], scalar)
  }

  // ---- Scanning a layout --------------------------------------------------------------------------------

  // At this depth the scan passes over `s` without a cut and ends at the same depth.
  ghost predicate Scans(s: string, depth: nat) {
    forall rest, current :: Split(s + rest, depth, current) == Split(rest, depth, current + s)
  }

  lemma ScansApply(s: string, depth: nat, rest: string, current: string)
    requires Scans(s, depth)
    ensures Split(s + rest, depth, current) == Split(rest, depth, current + s)
  {}

  lemma ScansJoin(a: string, b: string, depth: nat)
    requires Scans(a, depth) && Scans(b, depth)
    ensures Scans(a + b, depth)
  {
    hide Split, Scans;
    forall rest, current
      ensures Split((a + b) + rest, depth, current) == Split(rest, depth, current + (a + b))
    {
      assert (a + b) + rest == a + (b + rest) && current + (a + b) == (current + a) + b;
      ScansApply(a, depth, b + rest, current);
      ScansApply(b, depth, rest, current + a);
    }
    ScansIntro(a + b, depth);
  }

  lemma ScansIntro(s: string, depth: nat)
    requires forall rest, current :: Split(s + rest, depth, current) == Split(rest, depth, current + s)
    ensures Scans(s, depth)
  {}

  // No braces, and no comma unless inside braces.
  predicate Passes(s: string, depth: nat) {
    forall i :: 0 <= i < |s| ==> s[i] != '{' && s[i] != '}' && (depth > 0 || s[i] != ',')
  }

  lemma ScansChar(c: char, depth: nat)
    requires c != '{' && c != '}' && (depth > 0 || c != ',')
    ensures Scans([c], depth)
  {
    hide Strip;
    forall rest, current
      ensures Split([c] + rest, depth, current) == Split(rest, depth, current + [c])
    {
      assert ([c] + rest)[1..] == rest;
    }
  }

  lemma {:induction false} ScansText(s: string, depth: nat)
    requires Passes(s, depth)
    ensures Scans(s, depth)
  {
    hide Split, Scans;
    if s == [] {
      assert Scans(s, depth) by { ScansNothing(depth); }
    } else {
      ScansChar(s[0], depth);
      ScansText(s[1..], depth);
      ScansJoin([s[0]], s[1..], depth);
      assert s == [s[0]] + s[1..];
    }
  }

  lemma ScansNothing(depth: nat)
    ensures Scans([], depth)
  {
    hide Split;
    forall rest, current: string
      ensures Split([] + rest, depth, current) == Split(rest, depth, current + [])
    {
      assert [] + rest == rest && current + [] == current;
    }
  }

  lemma BraceStep(c: char, rest: string, depth: int, current: string)
    requires c == '{' || c == '}'
    ensures Split([c] + rest, depth, current) == Split(rest, depth + Step(c), current + [c])
  {
    hide Strip;
    assert ([c] + rest)[1..] == rest;
  }

  lemma ScansBraces(s: string, depth: nat)
    requires Scans(s, depth + 1)
    ensures Scans("{" + s + "}", depth)
  {
    hide Strip, Scans, Split;
    forall rest, current
      ensures Split(("{" + s + "}") + rest, depth, current) == Split(rest, depth, current + ("{" + s + "}"))
    {
      var after := "}" + rest;
      assert ("{" + s + "}") + rest == "{" + (s + after);
      BraceStep('{', s + after, depth, current);
      ScansApply(s, depth + 1, after, current + "{");
      BraceStep('}', rest, depth + 1, current + "{" + s);
      assert current + ("{" + s + "}") == current + "{" + s + "}";
    }
    ScansIntro("{" + s + "}", depth);
  }

  // An element is scanned without a cut, whatever is inside it; so is a whole body inside
  // braces.
  lemma {:induction false} ScansDoc(d: Doc, depth: nat)
    requires WellFormed(d)
    ensures Scans(Text(d), depth)
    decreases d, 0
  {
    hide Scans;
    match d
    case Atom(before, text, after) =>
      ScansText(Text(d), depth);
    case Braces(before, items, end, after) =>
      ScansBody(items, depth + 1);
      ScansText(end, depth + 1);
      ScansJoin(Body(items), end, depth + 1);
      ScansBraces(Body(items) + end, depth);
      ScansText(before, depth);
      ScansText(after, depth);
      ScansJoin(before, "{" + (Body(items) + end) + "}", depth);
      ScansJoin(before + ("{" + (Body(items) + end) + "}"), after, depth);
  }

  lemma {:induction false} ScansBody(items: seq<Doc>, depth: nat)
    requires depth > 0 && forall i :: 0 <= i < |items| ==> WellFormed(items[i])
    ensures Scans(Body(items), depth)
    decreases items, 1
  {
    hide Scans, WellFormed;
    if items == [] {
      ScansNothing(depth);
    } else {
      ScansDoc(items[0], depth);
      if |items| > 1 {
        ScansBody(items[1..], depth);
        ScansChar(',', depth);
        ScansJoin(Text(items[0]), ",", depth);
        ScansJoin(Text(items[0]) + ",", Body(items[1..]), depth);
      }
    }
  }

  // ---- Cutting a body -----------------------------------------------------------------------------------

  function Pieces(items: seq<Doc>): seq<string> {
    if items == [] then [] else [Strip(Text(items[0]))] + Pieces(items[1..])
  }

  // An element's own text, padding aside.
  function Core(d: Doc): string {
    match d
    case Atom(_, text, _) => text
    case Braces(_, items, end, _) => "{" + (Body(items) + end) + "}"
  }

  lemma CoreIsStripped(d: Doc)
    requires WellFormed(d)
    ensures Strip(Text(d)) == Core(d) && Core(d) != [] && (Core(d)[0] == '{' <==> d.Braces?)
  {
    hide LStrip, RStrip, Strip;
    StripPads(d.before, Core(d), d.after);
    assert Text(d) == d.before + Core(d) + d.after;
    assert Strip(Core(d)) == Core(d) by { TrimmedStays(Core(d)); }
  }

  lemma TrimmedStays(s: string)
    requires Trimmed(s)
    ensures Strip(s) == s
  {}

  lemma LastPiece(d: Doc, end: string)
    requires WellFormed(d) && Ending(end)
    ensures Split(end, 0, Text(d)) == [Strip(Text(d))]
  {
    hide Strip, Text, WellFormed, Core, Split, Spaces;
    CoreIsStripped(d);
    if Spaces(end) {
      SpacesScan(end, Text(d));
      TrailingIsStripped(Text(d), end);
    } else {
      SplitUnfolds(end, 0, 0, Text(d));
      assert end[0..] == end;
      BlankSplitsToNothing(end[1..]);
    }
  }

  lemma TrailingIsStripped(s: string, pad: string)
    requires Spaces(pad)
    ensures Strip(s + pad) == Strip(s)
  {
    hide Strip;
    StripPads([], s, pad);
    assert [] + s + pad == s + pad;
  }

  lemma BlankSplitsToNothing(s: string)
    requires Spaces(s)
    ensures Split(s, 0, []) == []
  {
    hide Strip, Split;
    SpacesScan(s, []);
    StripPads([], [], s);
    assert [] + [] + s == s && [] + s == s;
    assert Strip([]) == [] by { TrimmedStays([]); }
  }

  lemma SpacesScan(s: string, current: string)
    requires Spaces(s)
    ensures Split(s, 0, current) == if Strip(current + s) == [] then [] else [Strip(current + s)]
  {
    hide Strip;
    ScansText(s, 0);
    ScansApply(s, 0, [], current);
    assert s + [] == s;
  }

  lemma CutAtComma(first: string, rest: string)
    requires Scans(first, 0)
    ensures Split(first + ("," + rest), 0, []) == [Strip(first)] + Split(rest, 0, [])
  {
    hide Strip, Scans;
    ScansApply(first, 0, "," + rest, []);
    assert [] + first == first;
    assert ("," + rest)[1..] == rest;
  }

  lemma {:induction false} BodyIsCut(items: seq<Doc>, end: string)
    requires items != [] && Ending(end) && forall i :: 0 <= i < |items| ==> WellFormed(items[i])
    ensures Split(Body(items) + end, 0, []) == Pieces(items)
  {
    hide Strip, WellFormed, Split, Scans, Ending;
    var first := Text(items[0]);
    ScansDoc(items[0], 0);
    if |items| == 1 {
      ScansApply(first, 0, end, []);
      assert [] + first == first;
      LastPiece(items[0], end);
      assert Pieces(items) == [Strip(first)] + Pieces([]);
    } else {
      var rest := Body(items[1..]) + end;
      assert Body(items) + end == first + ("," + rest);
      CutAtComma(first, rest);
      BodyIsCut(items[1..], end);
    }
  }

  // ---- Padding around a body ----------------------------------------------------------------------------

  lemma {:induction false} LeadingPad(s: string, depth: int, pad: string, current: string)
    requires Spaces(pad)
    ensures Split(s, depth, pad + current) == Split(s, depth, current)
  {
    hide Strip, Step;
    StripPads(pad, current, []);
    assert pad + current + [] == pad + current;
    if s != [] && !(s[0] == ',' && depth == 0) {
      assert pad + current + [s[0]] == pad + (current + [s[0]]);
      LeadingPad(s[1..], depth + Step(s[0]), pad, current + [s[0]]);
    }
  }

  lemma {:induction false} TrailingPad(s: string, depth: int, pad: string, current: string)
    requires Spaces(pad)
    ensures Split(s + pad, depth, current) == Split(s, depth, current)
  {
    hide Strip;
    if s == [] {
      assert s + pad == pad;
      OnlyPad(pad, depth, current);
    } else {
      assert (s + pad)[1..] == s[1..] + pad;
      if s[0] == ',' && depth == 0 {
        TrailingPad(s[1..], 0, pad, []);
      } else {
        TrailingPad(s[1..], depth + Step(s[0]), pad, current + [s[0]]);
      }
    }
  }

  lemma {:induction false} OnlyPad(pad: string, depth: int, current: string)
    requires Spaces(pad)
    ensures Split(pad, depth, current) == Split([], depth, current)
  {
    hide Strip, Split;
    if pad != [] {
      assert pad[0..] == pad && Space(pad[0]);
      SplitUnfolds(pad, 0, depth, current);
      SplitEnds(depth, current);
      SplitEnds(depth, current + [pad[0]]);
      OnlyPad(pad[1..], depth, current + [pad[0]]);
      StripPads([], current, [pad[0]]);
      assert [] + current + [pad[0]] == current + [pad[0]];
    }
  }

  lemma {:induction false} LStripShape(s: string) returns (pad: string)
    ensures Spaces(pad) && s == pad + LStrip(s)
  {
    if s != [] && Space(s[0]) {
      pad := LStripShape(s[1..]);
      pad := [s[0]] + pad;
    } else {
      pad := [];
    }
  }

  lemma {:induction false} RStripShape(s: string) returns (pad: string)
    ensures Spaces(pad) && s == RStrip(s) + pad
  {
    if s != [] && Space(s[|s| - 1]) {
      pad := RStripShape(s[..|s| - 1]);
      pad := pad + [s[|s| - 1]];
    } else {
      pad := [];
    }
  }

  // Stripping a body first changes no element.
  lemma StripThenSplit(s: string)
    ensures Split(Strip(s), 0, []) == Split(s, 0, [])
  {
    hide Split, LStrip, RStrip;
    var before := LStripShape(s);
    var after := RStripShape(LStrip(s));
    TrailingPad(Strip(s), 0, after, []);
    LeadingPad(LStrip(s), 0, before, []);
    ScansText(before, 0);
    ScansApply(before, 0, LStrip(s), []);
    assert [] + before == before + [];
  }

  // ---- The round trip -----------------------------------------------------------------------------------

  // Every layout of a value, however padded and nested, is read back as that value.
  lemma {:induction false} LayoutIsRead<T>(d: Doc, scalar: string -> T, plain: string -> T)
    requires WellFormed(d)
    ensures ParsedElement(Strip(Text(d)), scalar, plain) == Value(d, scalar)
    decreases d, 1
  {
    hide Split, Text, Strip, Scans, LStrip, RStrip, Pieces;
    CoreIsStripped(d);
    StripsAgain(Text(d));
    match d
    case Atom(_, _, _) =>
    case Braces(_, items, end, _) =>
      BracesAreRead(d, scalar, plain);
  }

  lemma {:induction false} BracesAreRead<T>(d: Doc, scalar: string -> T, plain: string -> T)
    requires WellFormed(d) && d.Braces?
    ensures ParsedBrace(Text(d), scalar, plain) == Value(d, scalar)
    ensures ParsedBrace(Core(d), scalar, plain) == Value(d, scalar)
    decreases d, 0
  {
    hide Split, Text, Strip, Scans, LStrip, RStrip;
    var inside := Body(d.items) + d.end;
    CoreIsStripped(d);
    StripsAgain(Text(d));
    assert Inner(Core(d)) == inside;
    StripThenSplit(inside);
    InsideIsCut(d.items, d.end);
    PiecesAreRead(d.items, |inside|, scalar, plain);
  }

  lemma InsideIsCut(items: seq<Doc>, end: string)
    requires Ending(end) && (items == [] ==> Spaces(end)) && forall i :: 0 <= i < |items| ==> WellFormed(items[i])
    ensures Split(Body(items) + end, 0, []) == Pieces(items)
    ensures forall e :: e in Pieces(items) ==> |e| <= |Body(items) + end|
  {
    if items == [] {
      assert Body(items) + end == end;
      OnlyPad(end, 0, []);
    } else {
      BodyIsCut(items, end);
    }
    assert forall e :: e in Split(Body(items) + end, 0, []) ==> |e| <= |Body(items) + end|;
  }

  lemma {:induction false} PiecesAreRead<T>(items: seq<Doc>, bound: nat, scalar: string -> T, plain: string -> T)
    requires forall i :: 0 <= i < |items| ==> WellFormed(items[i])
    requires forall e :: e in Pieces(items) ==> |e| <= bound
    ensures ParsedElements(Pieces(items), bound, scalar, plain) == Values(items, scalar)
    decreases items, 2
  {
    hide WellFormed, Text, Strip, Value;
    if items != [] {
      var n := |items| - 1;
      PiecesSnoc(items[..n], items[n]);
      ValuesSnoc(items[..n], items[n], scalar);
      assert items == items[..n] + [items[n]];
      assert Pieces(items)[..n] == Pieces(items[..n]);
      PiecesAreRead(items[..n], bound, scalar, plain);
      LayoutIsRead(items[n], scalar, plain);
    }
  }

  lemma {:induction false} PiecesSnoc(items: seq<Doc>, d: Doc)
    ensures Pieces(items + [d]) == Pieces(items) + [Strip(Text(d))] && |Pieces(items)| == |items|
  {
    hide Strip, Text;
    if items == [] {
      assert (items + [d])[1..] == [];
    } else {
      assert (items + [d])[1..] == items[1..] + [d];
      PiecesSnoc(items[1..], d);
    }
  }

  lemma {:induction false} ValuesSnoc<T>(items: seq<Doc>, d: Doc, scalar: string -> T)
    ensures Values(items + [d], scalar) == Values(items, scalar) + [Value(d, scalar)]
  {
    hide Value;
    if items == [] {
      assert (items + [d])[1..] == [];
    } else {
      assert (items + [d])[1..] == items[1..] + [d];
      ValuesSnoc(items[1..], d, scalar);
    }
  }

  // The plain printing of a value: `{1,{2,3},4}`.
  function Printed<T>(v: Init<T>, show: T -> string): Doc {
    match v
    case Scalar(x) => Atom([], show(x), [])
    case Nested(items) => Braces([], PrintedAll(items, show), [], [])
  }

  function PrintedAll<T>(items: seq<Init<T>>, show: T -> string): (r: seq<Doc>)
    ensures |r| == |items|
  {
    if items == [] then [] else [Printed(items[0], show)] + PrintedAll(items[1..], show)
  }

  // The scalars of `v` are printed as element texts that read back as themselves.
  predicate ReadsBack<T(==)>(v: Init<T>, show: T -> string, scalar: string -> T) {
    match v
    case Scalar(x) => scalar(show(x)) == x && WellFormed(Atom([], show(x), []))
    case Nested(items) => forall i :: 0 <= i < |items| ==> ReadsBack(items[i], show, scalar)
  }

  // Printing a nested list and reading it gives the list back, empty sublists included.
  lemma PrintedListIsRead<T>(items: seq<Init<T>>, show: T -> string, scalar: string -> T, plain: string -> T)
    requires ReadsBack(Nested(items), show, scalar)
    ensures ParsedBrace(Text(Printed(Nested(items), show)), scalar, plain) == Nested(items)
  {
    hide Text, ParsedBrace;
    PrintedStandsFor(Nested(items), show, scalar);
    BracesAreRead(Printed(Nested(items), show), scalar, plain);
  }

  lemma {:induction false} PrintedStandsFor<T>(v: Init<T>, show: T -> string, scalar: string -> T)
    requires ReadsBack(v, show, scalar)
    ensures WellFormed(Printed(v, show)) && Value(Printed(v, show), scalar) == v
    decreases v, 0
  {
    if v.Nested? {
      PrintedAllStandFor(v.items, show, scalar);
    }
  }

  lemma {:induction false} PrintedAllStandFor<T>(items: seq<Init<T>>, show: T -> string, scalar: string -> T)
    requires forall i :: 0 <= i < |items| ==> ReadsBack(items[i], show, scalar)
    ensures forall i :: 0 <= i < |items| ==> WellFormed(PrintedAll(items, show)[i])
    ensures Values(PrintedAll(items, show), scalar) == items
    decreases items, 1
  {
    hide WellFormed, Value, ReadsBack;
    if items != [] {
      PrintedStandsFor(items[0], show, scalar);
      PrintedAllStandFor(items[1..], show, scalar);
    }
  }
}
