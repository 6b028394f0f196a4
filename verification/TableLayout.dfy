/** Where the strings of a table lie: one behind the other in the order they were inserted,
    each with its terminator when the table keeps them. */
module TableLayout {
  import opened Bytes
  import opened TableSort
  import opened TableOrder

  function Stored(s: seq<u8>, nullTerm: bool): seq<u8> {
    if nullTerm then s + [0] else s
  }

  /** The buffer after inserting the strings of `history`. */
  function Image(history: seq<seq<u8>>, nullTerm: bool): seq<u8> {
    if history == [] then []
    else Image(history[..|history| - 1], nullTerm) + Stored(history[|history| - 1], nullTerm)
  }

  /** The index table of the same insertions, in their order. */
  function Layout(history: seq<seq<u8>>, nullTerm: bool): seq<Idx> {
    if history == [] then []
    else
      var front := history[..|history| - 1];
      Layout(front, nullTerm) + [Idx(|Image(front, nullTerm)|, |history[|history| - 1]|)]
  }

  ghost predicate Storable(history: seq<seq<u8>>) {
    forall k :: 0 <= k < |history| ==> history[k] != [] && NulFree(history[k])
  }

  lemma Appended(history: seq<seq<u8>>, s: seq<u8>, nullTerm: bool)
    ensures Image(history + [s], nullTerm) == Image(history, nullTerm) + Stored(s, nullTerm)
    ensures Layout(history + [s], nullTerm) == Layout(history, nullTerm) + [Idx(|Image(history, nullTerm)|, |s|)]
  {
    assert (history + [s])[..|history|] == history;
  }

  lemma {:induction false} LayoutLength(history: seq<seq<u8>>, nullTerm: bool)
    ensures |Layout(history, nullTerm)| == |history|
  {
    if history != [] {
      LayoutLength(history[..|history| - 1], nullTerm);
    }
  }

  /** What one string's bytes are followed by changes nothing for it. */
  lemma StrPrefix(mem: seq<u8>, more: seq<u8>, i: Idx)
    requires i.offset + i.length <= |mem|
    ensures Str(mem + more, i) == Str(mem, i)
  {
    var a, b := i.offset, i.offset + i.length;
    assert (mem + more)[a..b] == mem[a..b];
  }

  /** Entry `k` resolves to string `k`, begins where the strings before it end, and the next one
      (or the end of the buffer) follows it without overlap or gap. */
  lemma {:induction false} EntriesTile(history: seq<seq<u8>>, nullTerm: bool, k: nat)
    requires k < |history|
    ensures |Layout(history, nullTerm)| == |history|
    ensures var e := Layout(history, nullTerm)[k];
      && e == Idx(|Image(history[..k], nullTerm)|, |history[k]|)
      && e.offset + |Stored(history[k], nullTerm)| == |Image(history[..k + 1], nullTerm)| <= |Image(history, nullTerm)|
      && Str(Image(history, nullTerm), e) == history[k]
    decreases |history|
  {
    LayoutLength(history, nullTerm);
    var last := |history| - 1;
    var front := history[..last];
    LayoutLength(front, nullTerm);
    if k == last {
      assert history[..k + 1] == history;
      StrOfLast(Image(front, nullTerm), history[last], Stored(history[last], nullTerm));
    } else {
      EntriesTile(front, nullTerm, k);
      assert front[..k] == history[..k] && front[..k + 1] == history[..k + 1];
      StrPrefix(Image(front, nullTerm), Stored(history[last], nullTerm), Layout(front, nullTerm)[k]);
    }
  }

  /** With terminators there is a NUL behind every string. */
  lemma {:induction false} EntriesTerminated(history: seq<seq<u8>>, k: nat)
    requires k < |history| == |Layout(history, true)|
    ensures var e := Layout(history, true)[k];
      e.offset + e.length < |Image(history, true)| && Image(history, true)[e.offset + e.length] == 0
    decreases |history|
  {
    var last := |history| - 1;
    var front := history[..last];
    if k < last {
      EntriesTile(front, true, k);
      EntriesTerminated(front, k);
    }
  }

  lemma StrOfLast(base: seq<u8>, s: seq<u8>, stored: seq<u8>)
    requires s <= stored
    ensures Str(base + stored, Idx(|base|, |s|)) == s
  {
    assert (base + stored)[|base|..|base| + |s|] == stored[..|s|];
  }

  /** Offsets grow with the insertions, as no stored string is empty. */
  lemma {:induction false} LayoutAscending(history: seq<seq<u8>>, nullTerm: bool)
    requires Storable(history)
    ensures StrictlyAscending(Layout(history, nullTerm))
    ensures forall k :: 0 <= k < |Layout(history, nullTerm)| ==>
      Layout(history, nullTerm)[k].offset < |Image(history, nullTerm)|
  {
    if history != [] {
      LayoutAscending(history[..|history| - 1], nullTerm);
    }
  }

  /** Sorting a table of appends by any comparator and unsorting it gives it back. */
  lemma UnsortUndoesSort(less: Order, history: seq<seq<u8>>, nullTerm: bool)
    requires Storable(history)
    ensures Sort(ByOffset, Sort(less, Layout(history, nullTerm))) == Layout(history, nullTerm)
  {
    LayoutAscending(history, nullTerm);
    SortThenUnsort(less, Layout(history, nullTerm));
  }

  // ---------- 16-bit entries ----------

  /** The entry written for a string of `len` bytes at `offset`, cut to 16 bits. */
  function NewIdx(offset: nat, len: nat): Idx {
    Idx(offset % 0x1_0000, len % 0x1_0000)
  }

  /** The cut entry is the right one exactly while both numbers fit. */
  lemma NewIdxIff(offset: nat, len: nat)
    ensures NewIdx(offset, len) == Idx(offset, len) <==> offset < 0x1_0000 && len < 0x1_0000
  {
  }

  /** One byte at offset 65536 gets the entry of one at offset 0. */
  lemma NewIdxWitness()
    ensures NewIdx(0x1_0000, 1) == Idx(0, 1)
  {
  }
}
