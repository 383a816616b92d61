/** The class `autoarray`: its constructors with their roll-back, its destructor, `swap` and `resize`. */
module AutoArray {
  import opened CStrings
  import opened ArrayStorage

  class Heap<T> {
    var mem: Memory<T>

    constructor (trivial: bool)
      ensures mem == Start<T>(trivial).mem
    {
      mem := Memory(map[], trivial, 0);
    }
  }

  lemma BuildOne<T>(m: Memory<T>, b: nat, values: seq<T>, k: nat)
    requires k < |values|
    ensures m.With(b, Window(values, 0, k)).Construct(b, k, values[k]) == m.With(b, Window(values, 0, k + 1))
  {
    assert Window(values, 0, k)[k := Built(values[k])] == Window(values, 0, k + 1);
    assert m.blocks[b := Window(values, 0, k)][b := Window(values, 0, k + 1)] == m.blocks[b := Window(values, 0, k + 1)];
  }

  lemma UnbuildLast<T>(m: Memory<T>, b: nat, values: seq<T>, k: nat)
    requires k < |values|
    ensures m.With(b, Window(values, 0, k + 1)).Destruct(b, k) == m.With(b, Window(values, 0, k))
  {
    assert Window(values, 0, k + 1)[k := Raw] == Window(values, 0, k);
    assert m.blocks[b := Window(values, 0, k + 1)][b := Window(values, 0, k)] == m.blocks[b := Window(values, 0, k)];
  }

  lemma UnbuildFirst<T>(m: Memory<T>, b: nat, values: seq<T>, k: nat, hi: nat)
    requires k < hi <= |values|
    ensures m.With(b, Window(values, k, hi)).Destruct(b, k) == m.With(b, Window(values, k + 1, hi))
  {
    assert Window(values, k, hi)[k := Raw] == Window(values, k + 1, hi);
    assert m.blocks[b := Window(values, k, hi)][b := Window(values, k + 1, hi)]
        == m.blocks[b := Window(values, k + 1, hi)];
  }

  lemma NoneBuilt<T>(m: Memory<T>, b: nat, values: seq<T>, k: nat)
    requires b !in m.blocks
    ensures m.Allocate(b, |values|) == m.With(b, Window(values, k, k))
    ensures m.With(b, Window(values, k, k)).Deallocate(b) == m
  {
    assert Window(values, k, k) == seq(|values|, i => Raw);
    var s := m.With(b, Window(values, k, k));
    assert s.Vacant(b);
    assert s.blocks - {b} == m.blocks;
  }

  class AutoArray<T> {
    var arr: Ptr
    var size: nat

    function View(): Arr
      reads this
    {
      Arr(arr, size)
    }

    constructor ()
      ensures View() == NOTHING
    {
      arr, size := Null, 0;
    }

    /** `AllocBuf`: storage for `n` elements, none of them built. */
    method AllocBuf(heap: Heap<T>, n: nat, place: nat)
      modifies this, heap
      ensures View() == ArrayAt(place, n)
      ensures heap.mem == if n == 0 then old(heap.mem) else old(heap.mem).Allocate(place, n)
    {
      arr, size := Null, 0;
      if n != 0 {
        heap.mem := heap.mem.Allocate(place, n);
        arr, size := At(place), n;
      }
    }

    /**
     `autoarray(siz)` and `autoarray(siz, fill)`: `n` elements of one value. If building one of them
     throws, the ones before it are destroyed from the last to the first, the storage is given back,
     and there is no array.
     */
    static method Filled(heap: Heap<T>, n: nat, value: T, failAt: nat, place: nat) returns (r: AutoArray?<T>)
      requires place !in heap.mem.blocks
      modifies heap
      ensures r == null <==> failAt < n
      ensures r == null ==> heap.mem == old(heap.mem)
      ensures r != null ==> fresh(r) && r.View() == ArrayAt(place, n)
      ensures r != null ==> heap.mem == Created(old(heap.mem), place, Full(Repeated(n, value)))
      ensures forall st: State<T>, o: nat ::
        st.mem == old(heap.mem) && Legal(st, Create(o, Repeated(n, value), failAt, place)) ==>
          Apply(st, Create(o, Repeated(n, value), failAt, place)) ==
            if r == null then st else State(heap.mem, st.objs[o := r.View()])
    {
      ghost var m, values := heap.mem, Repeated(n, value);
      r := new AutoArray<T>();
      r.AllocBuf(heap, n, place);
      NoneBuilt(m, place, values, 0);
      var curr := 0;
      while curr != r.size
        invariant curr <= n <= curr + |values| && curr <= failAt
        invariant r != null && fresh(r) && r.View() == ArrayAt(place, n)
        invariant heap.mem == if n == 0 then m else m.With(place, Window(values, 0, curr))
        decreases n - curr
      {
        if curr == failAt {
          while curr > 0
            invariant curr < n
            invariant heap.mem == m.With(place, Window(values, 0, curr))
          {
            curr := curr - 1;
            heap.mem := heap.mem.Destruct(place, curr);
            UnbuildLast(m, place, values, curr);
          }
          heap.mem := heap.mem.Deallocate(place);
          NoneBuilt(m, place, values, 0);
          return null;
        }
        heap.mem := heap.mem.Construct(place, curr, value);
        BuildOne(m, place, values, curr);
        curr := curr + 1;
      }
    }

    /**
     `autoarray(fill, initsiz, fullsiz, dummy)`: copies of the first elements of another array, and copies
     of `dummy` for the rest. The roll-back destroys from the first to the last.
     */
    static method Copied(heap: Heap<T>, src: Arr, full: nat, dummy: T, failAt: nat, place: nat)
      returns (r: AutoArray?<T>)
      requires place !in heap.mem.blocks
      requires src.size == |Contents(heap.mem, src)| && AllBuilt(Contents(heap.mem, src)[..Smaller(full, src.size)])
      modifies heap
      ensures r == null <==> failAt < full
      ensures r == null ==> heap.mem == old(heap.mem)
      ensures r != null ==> fresh(r) && r.View() == ArrayAt(place, full)
      ensures r != null ==>
        heap.mem == Created(old(heap.mem), place, Full(CopyOf(old(Contents(heap.mem, src)), full, dummy)))
      ensures var values := CopyOf(old(Contents(heap.mem, src)), full, dummy);
        forall st: State<T>, o: nat :: st.mem == old(heap.mem) && Legal(st, Create(o, values, failAt, place)) ==>
          Apply(st, Create(o, values, failAt, place)) ==
            if r == null then st else State(heap.mem, st.objs[o := r.View()])
    {
      ghost var m := heap.mem;
      var init := Smaller(src.size, full);
      ghost var values := CopyOf(Contents(m, src), full, dummy);
      CopyStarts(Contents(m, src), full, dummy);
      r := new AutoArray<T>();
      r.AllocBuf(heap, full, place);
      NoneBuilt(m, place, values, 0);
      var n := CopyElements(heap, src, init, failAt, place, m, values);
      while n < full && n != failAt
        invariant n <= full && n <= failAt && (init <= n || n == failAt) && r.View() == ArrayAt(place, full)
        invariant heap.mem == if full == 0 then m else m.With(place, Window(values, 0, n))
      {
        heap.mem := heap.mem.Construct(place, n, dummy);
        BuildOne(m, place, values, n);
        n := n + 1;
      }
      if n < full {
        RollBack(heap, m, place, values, n);
        return null;
      }
    }

    /** The copying loop of that constructor, up to the first element that throws. */
    static method CopyElements(heap: Heap<T>, src: Arr, init: nat, failAt: nat, place: nat,
                               ghost m: Memory<T>, ghost values: seq<T>) returns (n: nat)
      requires place !in m.blocks && init <= |values| && init <= |Contents(m, src)|
      requires forall i :: 0 <= i < init ==> Contents(m, src)[i] == Built(values[i])
      requires heap.mem == if values == [] then m else m.With(place, Window(values, 0, 0))
      modifies heap
      ensures n == Smaller(init, failAt)
      ensures heap.mem == if values == [] then m else m.With(place, Window(values, 0, n))
    {
      n := 0;
      while n < init && n != failAt
        invariant n <= init && n <= failAt
        invariant heap.mem == if values == [] then m else m.With(place, Window(values, 0, n))
      {
        assert Contents(heap.mem, src) == Contents(m, src);
        heap.mem := heap.mem.Construct(place, n, Contents(heap.mem, src)[n].value);
        BuildOne(m, place, values, n);
        n := n + 1;
      }
    }

    static method RollBack(heap: Heap<T>, ghost m: Memory<T>, place: nat, ghost values: seq<T>, built: nat)
      requires place !in m.blocks && built < |values| && heap.mem == m.With(place, Window(values, 0, built))
      modifies heap
      ensures heap.mem == m
    {
      var k := 0;
      while k < built
        invariant k <= built
        invariant heap.mem == m.With(place, Window(values, k, built))
      {
        heap.mem := heap.mem.Destruct(place, k);
        UnbuildFirst(m, place, values, k, built);
        k := k + 1;
      }
      heap.mem := heap.mem.Deallocate(place);
      NoneBuilt(m, place, values, built);
    }

    /** `autoarray(siz, aarr_nofill())`: storage only. */
    static method Unfilled(heap: Heap<T>, n: nat, place: nat) returns (r: AutoArray<T>)
      requires place !in heap.mem.blocks
      modifies heap
      ensures fresh(r) && r.View() == ArrayAt(place, n)
      ensures heap.mem == Created(old(heap.mem), place, seq(n, i => Raw))
    {
      r := new AutoArray<T>();
      r.AllocBuf(heap, n, place);
    }

    /** The array has storage of its size, or neither. */
    predicate Backed(mem: Memory<T>)
      reads this
    {
      (arr.Null? <==> size == 0) && (arr.At? ==> arr.index in mem.blocks && |mem.blocks[arr.index]| == size)
    }

    /** `~autoarray`: destroys every element, unless that is trivial, and gives the storage back. */
    method Destroy(heap: Heap<T>)
      requires Backed(heap.mem)
      modifies heap
      ensures heap.mem == Dropped(old(heap.mem), View())
    {
      ghost var m := heap.mem;
      if size != 0 {
        ghost var cells := m.blocks[arr.index];
        if !heap.mem.trivial {
          var k := 0;
          EmptyNone(m, arr.index);
          while k != size
            invariant k <= size == |cells|
            invariant heap.mem == Emptied(m, arr.index, cells, k)
            decreases size - k
          {
            heap.mem := heap.mem.Destruct(arr.index, k);
            EmptyOne(m, arr.index, cells, k);
            k := k + 1;
          }
          assert cells[..k] == cells;
        }
        heap.mem := heap.mem.Deallocate(arr.index);
        assert heap.mem.blocks == m.blocks - {arr.index};
      }
    }

    /** `swap`, also with itself. */
    method Swap(other: AutoArray<T>)
      modifies this, other
      ensures View() == old(other.View()) && other.View() == old(View())
    {
      var a, n := arr, size;
      arr, size := other.arr, other.size;
      other.arr, other.size := a, n;
    }

    /** `resize`: the machine's `Resize`, in every state that has this memory and this array. */
    method Resize(heap: Heap<T>, n: nat, fill: T, failAt: nat, place: nat) returns (threw: bool)
      requires Backed(heap.mem) && place !in heap.mem.blocks
      requires AllBuilt(Contents(heap.mem, View())[..Smaller(n, size)])
      modifies this, heap
      ensures threw <==> failAt < n
      ensures threw ==> View() == old(View()) && heap.mem == old(heap.mem)
      ensures Backed(heap.mem)
      ensures forall st: State<T>, o: nat ::
        st.mem == old(heap.mem) && o in st.objs && st.objs[o] == old(View())
        && Legal(st, ArrayStorage.Resize(o, n, fill, failAt, place)) && !threw ==>
          Apply(st, ArrayStorage.Resize(o, n, fill, failAt, place)) == State(heap.mem, st.objs[o := View()])
    {
      var tmp := Copied(heap, View(), n, fill, failAt, place);
      if tmp == null {
        return true;
      }
      Swap(tmp);
      tmp.Destroy(heap);
      return false;
    }
  }

  /** The destructor's loop after `k` elements. */
  function Emptied<T>(m: Memory<T>, b: nat, cells: seq<Cell<T>>, k: nat): Memory<T>
    requires k <= |cells|
  {
    m.With(b, seq(|cells|, i requires 0 <= i < |cells| => if i < k then Raw else cells[i]))
     .(wrong := m.wrong + RawCells(cells[..k]))
  }

  lemma EmptyNone<T>(m: Memory<T>, b: nat)
    requires b in m.blocks
    ensures Emptied(m, b, m.blocks[b], 0) == m
  {
    assert Emptied(m, b, m.blocks[b], 0).blocks[b] == m.blocks[b];
    assert Emptied(m, b, m.blocks[b], 0).blocks == m.blocks;
  }

  lemma EmptyOne<T>(m: Memory<T>, b: nat, cells: seq<Cell<T>>, k: nat)
    requires k < |cells|
    ensures Emptied(m, b, cells, k).Destruct(b, k) == Emptied(m, b, cells, k + 1)
  {
    var now, next := Emptied(m, b, cells, k), Emptied(m, b, cells, k + 1);
    assert cells[..k + 1][..k] == cells[..k];
    assert now.blocks[b][k := Raw] == next.blocks[b];
    assert now.blocks[b := next.blocks[b]] == next.blocks;
    if cells[k].Raw? {
      assert now.blocks[b] == next.blocks[b];
      assert now.blocks == next.blocks;
    }
  }
}
