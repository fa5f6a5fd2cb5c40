// The byte trie of _code_examples/solution_better/programs/lib/trie.h: 256 child pointers a
// node, the zeroth of which is its end mark.  NUL-terminated strings are sequences of
// non-zero bytes.
module Trie {
  type Byte = b: int | 1 <= b < 256 witness 1
  type Str = seq<Byte>

  // All of a non-empty string but its last byte.
  function Stem(s: Str): Str
    requires s != []
  {
    s[..|s| - 1]
  }

  class TrieNode {
    const children: array<TrieNode?>
    var mark: bool               // children[0]: null or 1
    ghost var marks: set<Str>    // the paths from here to a marked node
    ghost var Repr: set<object>

    ghost predicate Valid()
      reads this, Repr
      decreases Repr, 1
    {
      Owns() && forall p: Str :: p in marks <==> Marked(p)
    }

    // The children are tries of their own, apart from each other and from this node.
    ghost predicate Owns()
      reads this, Repr
      decreases Repr, 0
    {
      this in Repr && children in Repr && children.Length == 256
      && (forall i :: 0 <= i < 256 && children[i] != null ==>
            children[i] in Repr && children[i].Repr <= Repr
            && this !in children[i].Repr && children !in children[i].Repr && children[i].Valid())
      && (forall i, j :: 0 <= i < 256 && 0 <= j < 256 && i != j && children[i] != null && children[j] != null ==>
            children[i].Repr !! children[j].Repr)
    }

    // Whether the path `p` leads from here to a marked node.
    ghost predicate Marked(p: Str)
      requires children.Length == 256
      reads this, children, set i | 0 <= i < 256 && children.Length == 256 && children[i] != null :: children[i]
    {
      if p == [] then mark else children[p[0]] != null && p[1..] in children[p[0]].marks
    }

    // trie_node_new_
    constructor ()
      ensures Valid() && fresh(Repr) && marks == {}
    {
      children := new TrieNode?[256](_ => null);
      mark := false;
      marks := {};
      new;
      Repr := {this, children};
    }
  }

  // What inserting `s` below a node adds to its marks.
  function Added(s: Str): set<Str> { if s == [] then {} else {Stem(s)} }

  ghost function MarksOf(node: TrieNode?): set<Str>
    reads if node == null then {} else {node}
  {
    if node == null then {} else node.marks
  }

  ghost function ReprOf(node: TrieNode?): set<object>
    reads if node == null then {} else {node}
  {
    if node == null then {} else node.Repr
  }

  lemma StemSplits(s: Str, p: Str)
    requires s != []
    ensures p == Stem(s) <==> if p == [] then |s| == 1 else p[0] == s[0] && p[1..] in Added(s[1..])
  {
    if p != [] && |s| > 1 {
      assert Stem(s)[1..] == Stem(s[1..]) && p == [p[0]] + p[1..] && Stem(s) == [s[0]] + Stem(s)[1..];
    }
  }

  // trie_node_insert_
  method InsertAt(node: TrieNode?, s: Str) returns (r: TrieNode?)
    requires node != null ==> node.Valid()
    modifies ReprOf(node)
    ensures node != null || s == [] ==> r == node
    ensures s != [] ==> r != null
    ensures r != null ==> r.Valid() && fresh(r.Repr - old(ReprOf(node))) && old(ReprOf(node)) <= r.Repr
    ensures MarksOf(r) == old(MarksOf(node)) + Added(s)
    decreases |s|, 2
  {
    if s == [] {
      return node;
    }
    if node == null {
      r := new TrieNode();
    } else {
      r := node;
    }
    InsertBelow(r, s);
  }

  method InsertBelow(node: TrieNode, s: Str)
    requires s != [] && node.Valid()
    modifies node.Repr
    ensures node.Valid() && fresh(node.Repr - old(node.Repr)) && old(node.Repr) <= node.Repr
    ensures node.marks == old(node.marks) + {Stem(s)}
    decreases |s|, 1
  {
    InsertInChild(node, s[0], s[1..]);
    if |s| == 1 {
      node.mark := true;
    }
    node.marks := node.marks + {Stem(s)};
    forall p: Str
      ensures p in node.marks <==> node.Marked(p)
    {
      StemSplits(s, p);
      assert p in old(node.marks) <==> old(node.Marked(p));
    }
  }

  // children[c] = insert(children[c], rest): that child gains the marks of `rest`, and
  // the other children stay as they are.
  method InsertInChild(node: TrieNode, c: Byte, rest: Str)
    requires node.Valid()
    modifies node.Repr
    ensures node.Owns() && fresh(node.Repr - old(node.Repr)) && old(node.Repr) <= node.Repr
    ensures node.mark == old(node.mark) && node.marks == old(node.marks)
    ensures MarksOf(node.children[c]) == old(MarksOf(node.children[c])) + Added(rest)
    ensures forall i :: 0 <= i < 256 && i != c ==>
              node.children[i] == old(node.children[i]) && MarksOf(node.children[i]) == old(MarksOf(node.children[i]))
    ensures rest == [] ==> node.children[c] == old(node.children[c])
    ensures rest != [] ==> node.children[c] != null
    decreases |rest| + 1, 0
  {
    ghost var was, mine := node.children[..], ReprOf(node.children[c]);
    forall i | 0 <= i < 256 && i != c && was[i] != null
      ensures Apart(node, was[i]) && was[i].Repr !! mine
    {
      assert was[i].Valid();
    }
    var grown := InsertAt(node.children[c], rest);
    assert node.children[..] == was;
    forall i | 0 <= i < 256 && i != c && was[i] != null
      ensures Apart(node, was[i]) && was[i].Repr == old(was[i].Repr) && was[i].marks == old(was[i].marks)
    {
      assert was[i] !in mine;
    }
    node.children[c] := grown;
    if grown != null {
      assert Apart(node, grown);
      node.Repr := node.Repr + grown.Repr;
    }
    assert grown != null ==> grown.Valid();
    assert forall i :: 0 <= i < 256 && i != c && was[i] != null ==>
             Apart(node, was[i]) && was[i].marks == old(was[i].marks);
  }

  ghost predicate Apart(node: TrieNode, child: TrieNode)
    reads child, child.Repr
  {
    child in child.Repr && child.Valid() && node !in child.Repr && node.children !in child.Repr
  }

  // trie_node_contains_
  method ContainsAt(node: TrieNode?, s: Str) returns (found: bool)
    requires s != [] && (node != null ==> node.Valid())
    ensures found <==> Stem(s) in MarksOf(node)
    decreases |s|
  {
    if node == null {
      return false;
    }
    if |s| == 1 {
      return node.mark;
    }
    found := ContainsAt(node.children[s[0]], s[1..]);
    assert Stem(s)[1..] == Stem(s[1..]);
  }

  // ---- The trie -----------------------------------------------------------------------------------------

  // What a lookup answers after the words have been inserted.
  ghost predicate Found(words: set<Str>, s: Str)
    requires s != []
  {
    exists w :: w in words && w != [] && Stem(w) == Stem(s)
  }

  class Trie {
    var root: TrieNode?
    ghost var words: set<Str>    // everything inserted

    ghost predicate Valid()
      reads this, root, ReprOf(root)
    {
      (root != null ==> root.Valid()) && this !in ReprOf(root) && [] !in words
      && (forall w :: w in words ==> Stem(w) in MarksOf(root))
      && (forall p :: p in MarksOf(root) ==> exists w :: w in words && Stem(w) == p)
    }

    // trie_new
    constructor ()
      ensures Valid() && fresh(ReprOf(root)) && words == {}
    {
      root := null;
      words := {};
    }

    // trie_insert
    method Insert(s: Str)
      requires Valid() && s != []
      modifies this, ReprOf(root)
      ensures Valid() && fresh(ReprOf(root) - old(ReprOf(root)))
      ensures words == old(words) + {s}
    {
      ghost var marksWere := MarksOf(root);
      root := InsertAt(root, s);
      words := words + {s};
      forall p | p in MarksOf(root)
        ensures exists w :: w in words && Stem(w) == p
      {
        if p in marksWere {
          var w :| w in old(words) && Stem(w) == p;
          assert w in words;
        } else {
          assert s in words && Stem(s) == p;
        }
      }
    }

    // trie_contains
    method Contains(s: Str) returns (found: bool)
      requires Valid() && s != []
      ensures found <==> Found(words, s)
    {
      found := ContainsAt(root, s);
    }
  }

  // A fresh trie after any series of inserts.
  method InsertAll(series: seq<Str>) returns (t: Trie)
    requires [] !in series
    ensures fresh(t) && t.Valid() && t.words == set w | w in series
  {
    t := new Trie();
    for i := 0 to |series|
      invariant fresh(t) && fresh(ReprOf(t.root)) && t.Valid() && t.words == set w | w in series[..i]
    {
      t.Insert(series[i]);
      assert series[..i + 1] == series[..i] + [series[i]];
    }
    assert series[..|series|] == series;
  }

  // ---- What a lookup means ------------------------------------------------------------------------------

  // A string is found exactly when some inserted word has its length and agrees with it
  // on everything but the last byte.
  lemma FoundIsAllButLast(words: set<Str>, s: Str)
    requires s != []
    ensures Found(words, s) <==>
            exists w :: w in words && |w| == |s| && forall i :: 0 <= i < |s| - 1 ==> w[i] == s[i]
  {
    forall w: Str | w != []
      ensures Stem(w) == Stem(s) <==> |w| == |s| && forall i :: 0 <= i < |s| - 1 ==> w[i] == s[i]
    {
      assert forall i :: 0 <= i < |s| - 1 ==> Stem(s)[i] == s[i];
      assert forall i :: 0 <= i < |w| - 1 ==> Stem(w)[i] == w[i];
    }
  }

  // Lookups over the strings of `lang` answer set membership.
  ghost predicate ExactOver(lang: iset<Str>) {
    forall words: set<Str>, s :: s in lang && s != [] && (forall w :: w in words ==> w in lang && w != []) ==>
      (Found(words, s) <==> s in words)
  }

  // No two strings of `lang` differ in their last byte alone.
  ghost predicate StemsDiffer(lang: iset<Str>) {
    forall u, v :: u in lang && v in lang && u != [] && v != [] && Stem(u) == Stem(v) ==> u == v
  }

  // The trie is a set exactly over languages where the last byte carries no information.
  lemma ExactIffStemsDiffer(lang: iset<Str>)
    ensures ExactOver(lang) <==> StemsDiffer(lang)
  {
    if ExactOver(lang) {
      forall u, v | u in lang && v in lang && u != [] && v != [] && Stem(u) == Stem(v)
        ensures u == v
      {
        var words := {u};
        assert u in words;
        assert Found(words, v);
      }
    }
    if StemsDiffer(lang) {
      forall words: set<Str>, s | s in lang && s != [] && (forall w :: w in words ==> w in lang && w != [])
        ensures Found(words, s) <==> s in words
      {
        if Found(words, s) {
          var w :| w in words && w != [] && Stem(w) == Stem(s);
        }
      }
    }
  }

  // Strings that all end with the same byte are looked up exactly: so are lines read with
  // fgets that fit its buffer and end in a newline.
  lemma LinesAreExact(end: Byte)
    ensures ExactOver(iset s: Str | s != [] && s[|s| - 1] == end)
  {
    var lines := iset s: Str | s != [] && s[|s| - 1] == end;
    forall u, v | u in lines && v in lines && Stem(u) == Stem(v)
      ensures u == v
    {
      assert u == Stem(u) + [end] && v == Stem(v) + [end];
    }
    ExactIffStemsDiffer(lines);
  }

  // Over all non-empty strings it is not exact: "ac" is found after inserting "ab".
  lemma FalseHit()
    ensures Found({[97, 98]}, [97, 99]) && [97, 99] !in {[97, 98]}
    ensures !ExactOver(iset s: Str | |s| > 0)
  {
    var ab: Str, ac: Str := [97, 98], [97, 99];
    assert ab in {ab} && Stem(ab) == [97] && Stem(ac) == [97];
    assert ab[1] != ac[1];
    var all := iset s: Str | |s| > 0;
    assert ab in all && ac in all;
    assert !StemsDiffer(all);
    ExactIffStemsDiffer(all);
  }
}
