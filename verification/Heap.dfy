// The interpreter's memory in cdup/src/vm.py: a map of heap cells filled by a counter that
// never goes back, the addressable stack slots, and the C string builtins over them.
// Values are integers, characters their codes; the type kept beside a value is left out.
module Heap {
  import opened Wrappers
  import opened Initializers

  const NULL := 0

  datatype Mem = Mem(heap: map<int, int>, stack: map<int, int>) {
    // _heap_read; None is the RuntimeError
    function Read(a: int): Option<int> {
      if a == NULL then None
      else if a in heap then Some(heap[a])
      else if a in stack then Some(stack[a])
      else None
    }

    // _heap_write
    function Write(a: int, v: int): Option<Mem> {
      if a == NULL then None
      else if a in heap then Some(this.(heap := heap[a := v]))
      else if a in stack then Some(this.(stack := stack[a := v]))
      else None
    }

    // The cell `i` places after `a`.
    function At(a: int, i: int): Option<int> { Read(a + i) }

    // `n` characters from `a` on can be read and none is the terminator.
    predicate Runs(a: int, n: int) {
      forall i :: 0 <= i < n ==> At(a, i).Some? && At(a, i) != Some(0)
    }

    // The characters from `a` and from `b` on agree `n` times and neither string has ended.
    predicate Agree(a: int, b: int, n: int) {
      Runs(a, n) && forall i :: 0 <= i < n ==> At(a, i) == At(b, i)
    }

    // `cells` stand at `a`.
    predicate Stands(a: int, cells: seq<int>) {
      forall i :: 0 <= i < |cells| ==> At(a, i) == Some(cells[i])
    }

    // Addresses that can be read and written.
    function Cells(): set<int> { heap.Keys + stack.Keys - {NULL} }
  }

  // A write changes the one cell.
  lemma WriteThenRead(m: Mem, a: int, v: int, b: int)
    ensures m.Write(a, v).Some? <==> m.Read(a).Some?
    ensures m.Write(a, v).Some? ==>
              m.Write(a, v).value.Read(b) == (if b == a then Some(v) else m.Read(b))
              && m.Write(a, v).value.Cells() == m.Cells()
  {}

  // ---- Allocation ---------------------------------------------------------------------------------------

  // What an allocation puts into its block.
  datatype Request = Bytes(count: int, size: int) | Text(codes: seq<int>) | Items(values: seq<int>)

  // n_elems = max(1, n_bytes // sz)
  function CellCount(count: int, size: int): nat
    requires size > 0
  {
    if count / size < 1 then 1 else count / size
  }

  predicate Fits(r: Request) { r.Bytes? ==> r.size > 0 }

  function Contents(r: Request): seq<int>
    requires Fits(r)
  {
    match r
    case Bytes(count, size) => seq(CellCount(count, size), _ => 0)
    case Text(codes) => codes + [0]
    case Items(values) => values
  }

  // The heap with `cells` written from `base` on.
  function Placed(heap: map<int, int>, base: int, cells: seq<int>): map<int, int> {
    if cells == [] then heap
    else Placed(heap, base, cells[..|cells| - 1])[base + |cells| - 1 := cells[|cells| - 1]]
  }

  lemma PlacedOneMore(heap: map<int, int>, base: int, cells: seq<int>, n: nat)
    requires n < |cells|
    ensures Placed(heap, base, cells[..n + 1]) == Placed(heap, base, cells[..n])[base + n := cells[n]]
  {
    assert cells[..n + 1][..n] == cells[..n];
  }

  lemma PlacedNothing(heap: map<int, int>, base: int, cells: seq<int>)
    ensures Placed(heap, base, cells[..0]) == heap
  {}

  lemma {:induction false} PlacedAt(heap: map<int, int>, base: int, cells: seq<int>, a: int)
    ensures a in Placed(heap, base, cells) <==> a in heap || base <= a < base + |cells|
    ensures base <= a < base + |cells| ==> Placed(heap, base, cells)[a] == cells[a - base]
    ensures a in heap && !(base <= a < base + |cells|) ==> Placed(heap, base, cells)[a] == heap[a]
  {
    if cells != [] {
      PlacedAt(heap, base, cells[..|cells| - 1], a);
    }
  }

  // ---- Lists --------------------------------------------------------------------------------------------

  datatype Block = Block(base: int, size: nat)

  // The heap and counter after storing a list, and the blocks it was given.
  datatype Placement = Placement(heap: map<int, int>, next: int, blocks: seq<Block>)

  // A nested list is stored first, from the counter as it stands, and its address put in
  // the outer cell; the counter moves past the outer cells only at the end.
  function Stored(heap: map<int, int>, next: int, items: seq<Init<int>>): Placement
    decreases items, |items| + 1
  {
    var p := StoredFrom(heap, next, 0, next, items);
    Placement(p.heap, next + |items|, p.blocks + [Block(next, |items|)])
  }

  function StoredFrom(heap: map<int, int>, base: int, i: nat, next: int, items: seq<Init<int>>): Placement
    requires i <= |items|
    decreases items, |items| - i
  {
    if i == |items| then Placement(heap, next, [])
    else
      match items[i]
      case Scalar(v) => StoredFrom(heap[base + i := v], base, i + 1, next, items)
      case Nested(row) =>
        var p := Stored(heap, next, row);
        var q := StoredFrom(p.heap[base + i := next], base, i + 1, p.next, items);
        Placement(q.heap, q.next, p.blocks + q.blocks)
  }

  class Machine {
    var mem: Mem
    var counter: int

    // _alloc_heap
    method AllocHeap(count: int, size: int) returns (base: int)
      requires size > 0
      modifies this
      ensures base == old(counter) && counter == base + |Contents(Bytes(count, size))|
      ensures mem == old(mem).(heap := Placed(old(mem.heap), base, Contents(Bytes(count, size))))
    {
      hide Placed;
      base := counter;
      var n := CellCount(count, size);
      ghost var cells := Contents(Bytes(count, size));
      PlacedNothing(mem.heap, base, cells);
      for i := 0 to n
        invariant mem == old(mem).(heap := Placed(old(mem.heap), base, cells[..i]))
        invariant counter == base
      {
        PlacedOneMore(old(mem.heap), base, cells, i);
        mem := mem.(heap := mem.heap[base + i := 0]);
      }
      assert cells[..n] == cells;
      counter := base + n;
    }

    // _intern_string
    method InternString(codes: seq<int>) returns (base: int)
      modifies this
      ensures base == old(counter) && counter == base + |Contents(Text(codes))|
      ensures mem == old(mem).(heap := Placed(old(mem.heap), base, Contents(Text(codes))))
    {
      hide Placed;
      base := counter;
      ghost var cells := Contents(Text(codes));
      PlacedNothing(mem.heap, base, cells);
      for i := 0 to |codes|
        invariant mem == old(mem).(heap := Placed(old(mem.heap), base, cells[..i]))
        invariant counter == base
      {
        PlacedOneMore(old(mem.heap), base, cells, i);
        mem := mem.(heap := mem.heap[base + i := codes[i]]);
      }
      PlacedOneMore(old(mem.heap), base, cells, |codes|);
      assert cells[..|codes| + 1] == cells;
      mem := mem.(heap := mem.heap[base + |codes| := 0]);
      counter := base + |codes| + 1;
    }

    // _list_to_heap
    method ListToHeap(items: seq<Init<int>>) returns (base: int)
      modifies this
      ensures base == old(counter) && mem.stack == old(mem.stack)
      ensures mem.heap == Stored(old(mem.heap), base, items).heap && counter == Stored(old(mem.heap), base, items).next
      decreases items
    {
      base := counter;
      ghost var all := StoredFrom(mem.heap, base, 0, counter, items);
      for i := 0 to |items|
        invariant mem.stack == old(mem.stack)
        invariant StoredFrom(mem.heap, base, i, counter, items).heap == all.heap
      {
        match items[i]
        case Scalar(v) =>
          mem := mem.(heap := mem.heap[base + i := v]);
        case Nested(row) =>
          var rowBase := ListToHeap(row);
          mem := mem.(heap := mem.heap[base + i := rowBase]);
      }
      counter := base + |items|;
    }

    // strlen; None when the walk leaves the readable memory
    method StrLen(a: int) returns (r: Option<int>)
      ensures LengthAnswer(mem, a, r)
    {
      var length := 0;
      while true
        invariant 0 <= length <= 100000 && mem.Runs(a, length)
        decreases 100000 - length
      {
        var v := mem.At(a, length);
        if v.None? {
          return None;
        }
        if v.value == 0 {
          break;
        }
        length := length + 1;
        if length > 100000 {
          break;
        }
      }
      return Some(length);
    }

    // strcmp
    method StrCmp(a: int, b: int) returns (r: Option<int>)
      ensures CompareAnswer(mem, a, b, r)
    {
      var i := 0;
      ghost var ahead := mem.Cells();
      while true
        invariant i >= 0 && mem.Agree(a, b, i)
        invariant forall x :: x in mem.Cells() && x >= a + i ==> x in ahead
        decreases |ahead|
      {
        var x, y := mem.At(a, i), mem.At(b, i);
        if x.None? || y.None? {
          return None;
        }
        if x.value != y.value {
          assert Decides(mem, a, b, i, x.value - y.value);
          return Some(x.value - y.value);
        }
        if x.value == 0 {
          assert Decides(mem, a, b, i, 0);
          return Some(0);
        }
        assert a + i in ahead;
        ahead := ahead - {a + i};
        i := i + 1;
      }
    }

    // strcpy; false when a read or a write fails.  `n` is the length of the string at
    // `src`, for the promise when it is there and the destination has room elsewhere.
    method StrCpy(dst: int, src: int, ghost n: nat) returns (ok: bool)
      modifies this
      ensures counter == old(counter) && mem.Cells() == old(mem).Cells()
      ensures CanCopy(old(mem), dst, src, n) ==> ok && Copied(old(mem), mem, dst, src, n + 1)
    {
      hide Mem.Read, Mem.Write, Mem.Cells;
      var i := 0;
      ghost var ahead, was := mem.Cells(), mem;
      CopiedNothing(mem, dst, src);
      while true
        invariant i >= 0 && counter == old(counter) && mem.Cells() == was.Cells()
        invariant forall x :: x in was.Cells() && x >= src + i ==> x in ahead
        invariant CanCopy(was, dst, src, n) ==> i <= n && Copied(was, mem, dst, src, i)
        decreases |ahead|
      {
        var v := mem.At(src, i);
        if CanCopy(was, dst, src, n) {
          CopyStep(was, mem, dst, src, n, i);
        }
        if v.None? {
          return false;
        }
        ReadableIsCell(mem, src + i);
        WriteThenRead(mem, dst + i, v.value, dst + i);
        var m := mem.Write(dst + i, v.value);
        if m.None? {
          return false;
        }
        mem := m.value;
        if v.value == 0 {
          return true;
        }
        ahead := ahead - {src + i};
        i := i + 1;
      }
    }
  }

  lemma ReadableIsCell(m: Mem, a: int)
    ensures a in m.Cells() <==> m.Read(a).Some?
  {}

  // A string of length `n` stands at `src`, and `dst` is a writable block apart from it.
  predicate CanCopy(m: Mem, dst: int, src: int, n: nat) {
    m.Runs(src, n) && m.At(src, n) == Some(0)
    && (forall i :: 0 <= i <= n ==> m.At(dst, i).Some?)
    && (dst + n < src || src + n < dst)
  }

  // `m` is `was` with `n` cells copied from `src` to `dst`, and nothing else changed.
  ghost predicate Copied(was: Mem, m: Mem, dst: int, src: int, n: int) {
    (forall i :: 0 <= i < n ==> m.At(dst, i) == was.At(src, i))
    && (forall b :: !(dst <= b < dst + n) ==> m.Read(b) == was.Read(b))
  }

  lemma CopiedNothing(m: Mem, dst: int, src: int)
    ensures Copied(m, m, dst, src, 0)
  {}

  lemma CopyStep(was: Mem, m: Mem, dst: int, src: int, n: nat, i: nat)
    requires CanCopy(was, dst, src, n) && i <= n && Copied(was, m, dst, src, i)
    ensures m.At(src, i) == was.At(src, i) && m.At(src, i).Some? && (m.At(src, i) == Some(0) <==> i == n)
    ensures var w := m.Write(dst + i, m.At(src, i).value);
            w.Some? && Copied(was, w.value, dst, src, i + 1)
  {
    hide Mem.Write, Mem.Cells, Mem.Read;
    assert was.At(dst, i).Some?;
    var v := was.At(src, i).value;
    forall b
      ensures m.Write(dst + i, v).Some? <==> m.Read(dst + i).Some?
      ensures m.Write(dst + i, v).Some? ==>
                m.Write(dst + i, v).value.Read(b) == if b == dst + i then Some(v) else m.Read(b)
    {
      WriteThenRead(m, dst + i, v, b);
    }
  }

  // The walk ends at the terminator, at the cap, or where memory ends.
  ghost predicate LengthAnswer(m: Mem, a: int, r: Option<int>) {
    match r
    case Some(n) => 0 <= n <= 100001 && m.Runs(a, n) && (n <= 100000 ==> m.At(a, n) == Some(0))
    case None => exists n :: 0 <= n <= 100000 && m.Runs(a, n) && m.At(a, n) == None
  }

  ghost predicate CompareAnswer(m: Mem, a: int, b: int, r: Option<int>) {
    match r
    case Some(d) => exists n :: n >= 0 && m.Agree(a, b, n) && Decides(m, a, b, n, d)
    case None => exists n :: n >= 0 && m.Agree(a, b, n) && (m.At(a, n) == None || m.At(b, n) == None)
  }

  // At place `n` the comparison of `a` and `b` ends with the answer `d`.
  predicate Decides(m: Mem, a: int, b: int, n: int, d: int) {
    m.At(a, n).Some? && m.At(b, n).Some? && d == m.At(a, n).value - m.At(b, n).value
    && (d == 0 ==> m.At(a, n) == Some(0))
  }
}
