// A text on which the segments of cdup/src/parse.py do not partition the text.
module BraceCases {
  import opened Wrappers
  import opened Braces
  import opened BracePairs
  import opened BraceSegments
  import opened BraceLaws

  // The braces of a text from place i on.
  function BracesFrom(text: string, i: nat): seq<nat>
    decreases |text| - i
  {
    if i >= |text| then [] else (if text[i] in {'{', '}'} then [i] else []) + BracesFrom(text, i + 1)
  }

  lemma {:induction false} PlainBraces(text: string, i: nat)
    requires forall k :: 0 <= k < |text| ==> text[k] !in {'/', '"', '\'', '=', '(', ')'}
    ensures BlockBraces(text, i, Code, 0) == BracesFrom(text, i) && Parens(text, i, Code) == []
    decreases |text| - i
  {
    if i < |text| {
      StartsWithFirst(text, i, "//");
      StartsWithFirst(text, i, "/*");
      PlainBraces(text, i + 1);
    }
  }

  lemma CopyRun(bits: seq<bool>)
    requires bits == [true, true, false, true, false]
    ensures Run(bits) == Some(Pass([0], 3, 2, [Link(1, 0), Link(2, 1)], [0, 0, 0]))
  {
    hide Run, Push, Pop;
    RunOfNone();
    CopyPushes();
    CopyPops();
    assert bits[..0] == [] && bits[..5] == bits;
    RunStep(bits, 0);
    RunStep(bits, 1);
    RunStep(bits, 2);
    RunStep(bits, 3);
    RunStep(bits, 4);
  }

  lemma CopyPushes()
    ensures Push(Pass([], 0, 0, [], [])) == Pass([0], 1, 0, [], [0])
    ensures Push(Pass([0], 1, 0, [], [0])) == Pass([0, 1], 2, 0, [], [0, 0])
    ensures Push(Pass([0], 2, 1, [Link(1, 0)], [0, 0])) == Pass([0, 2], 3, 1, [Link(1, 0)], [0, 0, 0])
  {}

  lemma CopyPops()
    ensures Pop(Pass([0, 1], 2, 0, [], [0, 0])) == Pass([0], 2, 1, [Link(1, 0)], [0, 0])
    ensures Pop(Pass([0, 2], 3, 1, [Link(1, 0)], [0, 0, 0])) == Pass([0], 3, 2, [Link(1, 0), Link(2, 1)], [0, 0, 0])
  {}

  lemma RunOfNone()
    ensures Run([]) == Some(Pass([], 0, 0, [], []))
  {}

  lemma CopyPlaces(bits: seq<bool>, at: seq<nat>)
    requires bits == [true, true, false, true, false] && at == [0, 2, 4, 6, 8]
    ensures OpensOf(bits, at) == [1, 3, 7] && ClosesOf(bits, at) == [4, 8]
  {
    hide OpensOf, ClosesOf;
    PlacesOfNone();
    assert bits[..0] == [] && at[..0] == [] && bits[..5] == bits && at[..5] == at;
    PlacesStep(bits, at, 0);
    PlacesStep(bits, at, 1);
    PlacesStep(bits, at, 2);
    PlacesStep(bits, at, 3);
    PlacesStep(bits, at, 4);
  }

  lemma PlacesOfNone()
    ensures OpensOf([], []) == [] && ClosesOf([], []) == []
  {}

  lemma PlacesStep(bits: seq<bool>, at: seq<nat>, e: nat)
    requires e < |bits| == |at|
    ensures OpensOf(bits[..e + 1], at[..e + 1]) == OpensOf(bits[..e], at[..e]) + if bits[e] then [at[e] + 1] else []
    ensures ClosesOf(bits[..e + 1], at[..e + 1]) == ClosesOf(bits[..e], at[..e]) + if bits[e] then [] else [at[e]]
  {
    assert bits[..e + 1][..e] == bits[..e] && at[..e + 1][..e] == at[..e];
  }

  lemma CopyIsPaired(text: string, bits: seq<bool>, at: seq<nat>)
    requires text == "{a{b}c{d}" && bits == [true, true, false, true, false] && at == [0, 2, 4, 6, 8]
    ensures Paired(bits, at, [Block(3, 4), Block(7, 8)], [0, 0, 0], |text|)
  {
    hide Run, OpensOf, ClosesOf, Bracketing, Cuttable, Nested, ClosedFirst, CountOpens;
    CopyRun(bits);
    CopyPlaces(bits, at);
    RunIsPaired(text, bits, at);
    var ps := Positions([Link(1, 0), Link(2, 1)], [1, 3, 7], [4, 8]);
    assert ps == [Block(3, 4), Block(7, 8)];
    SortKeeps(ps);
    AscendingIsUnique(ps, SortByOpen(ps));
  }

  lemma CopyIsLeft(text: string, bs: seq<Block>, parents: seq<nat>)
    requires text == "{a{b}c{d}" && bs == [Block(3, 4), Block(7, 8)] && parents == [0, 0, 0]
    ensures Left(text, bs, parents, 1, 0) == "d" && Left(text, bs, parents, -1, 0) == "{a{}c{d}"
    ensures Mine(text, bs, -1, |text|) == "{a{}c{}"
  {
    hide Owner, Mine;
    assert Left(text, bs, parents, 1, 2) == text[7..8] == "d";
    assert Left(text, bs, parents, -1, 2) == text[0..9] == text;
    assert Left(text, bs, parents, -1, 1) == text;
    assert Left(text, bs, parents, -1, 0) == text[..3] + text[4..];
    CopyOwners(bs);
    MineStep(text, bs, 0);
    MineStep(text, bs, 1);
    MineStep(text, bs, 2);
    MineStep(text, bs, 3);
    MineStep(text, bs, 4);
    MineStep(text, bs, 5);
    MineStep(text, bs, 6);
    MineStep(text, bs, 7);
    MineStep(text, bs, 8);
  }

  lemma MineStep(text: string, bs: seq<Block>, h: nat)
    requires h < |text|
    ensures Mine(text, bs, -1, 0) == []
    ensures Mine(text, bs, -1, h + 1) == Mine(text, bs, -1, h) + if Owner(bs, h) == -1 then [text[h]] else []
  {}

  lemma CopyOwners(bs: seq<Block>)
    requires bs == [Block(3, 4), Block(7, 8)]
    ensures forall q :: Owner(bs, q) == if q == 7 then 1 else if q == 3 then 0 else -1
  {
    forall q ensures Owner(bs, q) == if q == 7 then 1 else if q == 3 then 0 else -1 {
      OwnerIsLast(bs, q);
      assert Holds(bs[0], q) <==> q == 3;
      assert Holds(bs[1], q) <==> q == 7;
    }
  }

  lemma CopyBits()
    ensures BlockBraces("{a{b}c{d}", 0, Code, 0) == [0, 2, 4, 6, 8]
    ensures BraceBits("{a{b}c{d}") == [true, true, false, true, false] && ParenBits("{a{b}c{d}") == []
  {
    hide BlockBraces, Parens;
    PlainBraces("{a{b}c{d}", 0);
    assert BracesFrom("{a{b}c{d}", 0) == [0, 2, 4, 6, 8];
  }

  // The pairs are those of the second and third "{", the parents those of the first and
  // second: the last block is not cut out of the root, and its text is there twice.
  lemma UnclosedLeavesACopy()
    ensures var text, bs, parents := "{a{b}c{d}", [Block(3, 4), Block(7, 8)], [0, 0, 0];
            !Overclosed(BraceBits(text)) && !Overclosed(ParenBits(text))
            && Paired(BraceBits(text), BlockBraces(text, 0, Code, 0), bs, parents, |text|)
            && !ParentsRight(bs, parents)
            && Left(text, bs, parents, 1, 0) == "d" && Left(text, bs, parents, -1, 0) == "{a{}c{d}"
            && Mine(text, bs, -1, |text|) == "{a{}c{}"
  {
    hide Run, OpensOf, ClosesOf, Paired, Left, Mine, Overclosed, BlockBraces, Parens, Kinds;
    var text, bs, parents: seq<nat> := "{a{b}c{d}", [Block(3, 4), Block(7, 8)], [0, 0, 0];
    var at: seq<nat> := [0, 2, 4, 6, 8];
    CopyBits();
    var bits := BraceBits(text);
    CopyRun(bits);
    CopyIsPaired(text, bits, at);
    RunFailsWhenNegative(bits);
    RunFailsWhenNegative(ParenBits(text));
    RunOfNone();
    assert !IsParent(bs, 1, 0);
    CopyIsLeft(text, bs, parents);
  }
}
