/** Putting streamed tool-call fragments back together by index. */
module ToolCallDeltas {
  import opened Decimals
  import opened Sequences
  import opened Wrappers

  /** One fragment: absent fields are None for the id, and empty for name and arguments. */
  datatype Delta = Delta(index: int, id: Option<string>, name: string, arguments: string)

  datatype Call = Call(id: string, name: string, arguments: string)

  function DefaultId(index: int): string {
    "call_" + if index < 0 then "-" + WriteDigits(-index, 1) else WriteDigits(index, 1)
  }

  function Opened(d: Delta): Call {
    Call(match d.id case None => DefaultId(d.index) case Some(id) => id, "", "")
  }

  function Updated(c: Call, d: Delta): Call {
    Call(match d.id case None => c.id case Some(id) => if id == "" then c.id else id,
         if d.name == "" then c.name else d.name,
         c.arguments + d.arguments)
  }

  type Calls = map<int, Call>

  function Merge(calls: Calls, d: Delta): Calls {
    var c := if d.index in calls then calls[d.index] else Opened(d);
    calls[d.index := Updated(c, d)]
  }

  function MergeAll(deltas: seq<Delta>): Calls {
    if deltas == [] then map[] else Merge(MergeAll(deltas[..|deltas| - 1]), deltas[|deltas| - 1])
  }

  // ----- the calls listed by index -----

  ghost predicate ListsKeys(order: seq<int>, calls: Calls) {
    Increasing(order) && forall k :: k in calls <==> k in order
  }

  /** `sorted(...)` over the keys. */
  method SortedKeys(calls: Calls) returns (order: seq<int>)
    ensures ListsKeys(order, calls)
  {
    order := [];
    var left := calls.Keys;
    while left != {}
      invariant left <= calls.Keys && Increasing(order)
      invariant forall k :: k in calls <==> k in order || k in left
      invariant forall i, k :: 0 <= i < |order| && k in left ==> order[i] < k
      decreases |left|
    {
      var least := Least(left);
      order := order + [least];
      left := left - {least};
    }
  }

  lemma Member<T>(s: set<T>) returns (x: T)
    requires s != {}
    ensures x in s
  {
    x :| x in s;
  }

  method Least(s: set<int>) returns (least: int)
    requires s != {}
    ensures least in s && forall k :: k in s ==> least <= k
  {
    ghost var some := Member(s);
    least :| least in s;
    var left := s - {least};
    while left != {}
      invariant left <= s && least in s
      invariant forall k :: k in s ==> k in left || least <= k
      decreases |left|
    {
      some := Member(left);
      var k :| k in left;
      left := left - {k};
      if k < least {
        least := k;
      }
    }
  }

  /** There is only one such list. */
  lemma {:induction false} OrderUnique(a: seq<int>, b: seq<int>)
    requires Increasing(a) && Increasing(b) && forall k :: k in a <==> k in b
    ensures a == b
  {
    assert a != [] ==> a[0] in a;
    assert b != [] ==> b[0] in b;
    if a != [] && b != [] {
      assert a[0] == b[0];
      TailKeys(a, b);
      OrderUnique(a[1..], b[1..]);
    }
  }

  lemma TailKeys(a: seq<int>, b: seq<int>)
    requires Increasing(a) && Increasing(b) && a != [] && b != [] && a[0] == b[0]
    requires forall k :: k in a <==> k in b
    ensures forall k :: k in a[1..] <==> k in b[1..]
  {
    forall k
      ensures k in a[1..] <==> k in b[1..]
    {
      assert k in a[1..] <==> k in a && k != a[0];
      assert k in b[1..] <==> k in b && k != b[0];
    }
  }

  // ----- what each call is made of -----

  /** The fragments of one index, in arrival order. */
  function Projection(deltas: seq<Delta>, index: int): seq<Delta> {
    if deltas == [] then []
    else
      var last := deltas[|deltas| - 1];
      Projection(deltas[..|deltas| - 1], index) + if last.index == index then [last] else []
  }

  function JoinedArguments(ds: seq<Delta>): string {
    if ds == [] then "" else JoinedArguments(ds[..|ds| - 1]) + ds[|ds| - 1].arguments
  }

  function LastName(ds: seq<Delta>): string {
    if ds == [] then ""
    else if ds[|ds| - 1].name != "" then ds[|ds| - 1].name
    else LastName(ds[..|ds| - 1])
  }

  /** The last non-empty id; failing that, what the first fragment opened with. */
  function LastId(ds: seq<Delta>): string
    requires ds != []
  {
    var d := ds[|ds| - 1];
    if d.id.Some? && d.id.value != "" then d.id.value
    else if |ds| == 1 then Opened(d).id
    else LastId(ds[..|ds| - 1])
  }

  /** Arguments join in arrival order, nothing between them. */
  lemma {:induction false} ArgumentsJoin(ds: seq<Delta>)
    ensures JoinedArguments(ds) == Flatten(seq(|ds|, i requires 0 <= i < |ds| => ds[i].arguments))
  {
    if ds != [] {
      var n := |ds| - 1;
      ArgumentsJoin(ds[..n]);
      var all := seq(|ds|, i requires 0 <= i < |ds| => ds[i].arguments);
      assert all[..n] == seq(n, i requires 0 <= i < n => ds[..n][i].arguments);
    }
  }

  /** The name is that of the last fragment with one, and empty if none has one. */
  lemma {:induction false} NameIsLast(ds: seq<Delta>, i: nat)
    requires i <= |ds| && (i > 0 ==> ds[i - 1].name != "") && forall j :: i <= j < |ds| ==> ds[j].name == ""
    ensures LastName(ds) == if i == 0 then "" else ds[i - 1].name
  {
    if i < |ds| {
      NameIsLast(ds[..|ds| - 1], i);
    }
  }

  predicate Identified(d: Delta) {
    d.id.Some? && d.id.value != ""
  }

  /** The id is that of the last fragment with a non-empty one; if none has one, it is made up
      from the index, unless the first fragment came with an empty id. */
  lemma {:induction false} IdIsLast(ds: seq<Delta>, i: nat)
    requires ds != [] && i <= |ds| && (i > 0 ==> Identified(ds[i - 1]))
    requires forall j :: i <= j < |ds| ==> !Identified(ds[j])
    ensures LastId(ds)
         == if i > 0 then ds[i - 1].id.value
            else if ds[0].id == Some("") then ""
            else "call_" + (if ds[0].index < 0 then "-" else "") + WriteDigits(Magnitude(ds[0].index), 1)
  {
    if i < |ds| && |ds| > 1 {
      IdIsLast(ds[..|ds| - 1], i);
    }
  }

  function Magnitude(n: int): nat {
    if n < 0 then -n else n
  }

  function Reassembled(ds: seq<Delta>): Call
    requires ds != []
  {
    Call(LastId(ds), LastName(ds), JoinedArguments(ds))
  }

  lemma ReassembledSnoc(ds: seq<Delta>, d: Delta)
    ensures ds == [] ==> Reassembled(ds + [d]) == Updated(Opened(d), d)
    ensures ds != [] ==> Reassembled(ds + [d]) == Updated(Reassembled(ds), d)
  {
    var all := ds + [d];
    assert all[..|all| - 1] == ds && all[|all| - 1] == d;
    assert JoinedArguments(all) == JoinedArguments(ds) + d.arguments;
    assert LastName(all) == if d.name != "" then d.name else LastName(ds);
  }

  /** Whatever the interleaving, each index holds its own fragments' arguments joined in order
      and its last non-empty name and id; indices without a fragment hold nothing. */
  lemma {:induction false} MergedByProjection(deltas: seq<Delta>, index: int)
    ensures index in MergeAll(deltas) <==> Projection(deltas, index) != []
    ensures index in MergeAll(deltas) ==> MergeAll(deltas)[index] == Reassembled(Projection(deltas, index))
  {
    hide Reassembled, Updated, Opened;
    if deltas != [] {
      var before, last := deltas[..|deltas| - 1], deltas[|deltas| - 1];
      MergedByProjection(before, index);
      ReassembledSnoc(Projection(before, index), last);
      if last.index != index {
        assert Projection(deltas, index) == Projection(before, index);
      }
    }
  }

  lemma SameProjectionsSameMap(a: seq<Delta>, b: seq<Delta>)
    requires forall index :: Projection(a, index) == Projection(b, index)
    ensures MergeAll(a) == MergeAll(b)
  {
    forall index
      ensures index in MergeAll(a) <==> index in MergeAll(b)
      ensures index in MergeAll(a) ==> MergeAll(a)[index] == MergeAll(b)[index]
    {
      MergedByProjection(a, index);
      MergedByProjection(b, index);
    }
  }

  /** Swapping two neighbouring fragments of different indices changes nothing. */
  lemma {:induction false} NeighboursCommute(a: seq<Delta>, x: Delta, y: Delta, b: seq<Delta>)
    requires x.index != y.index
    ensures MergeAll(a + [x, y] + b) == MergeAll(a + [y, x] + b)
  {
    forall index
      ensures Projection(a + [x, y] + b, index) == Projection(a + [y, x] + b, index)
    {
      ProjectionAppend(a + [x, y], b, index);
      ProjectionAppend(a + [y, x], b, index);
      ProjectionAppend(a, [x, y], index);
      ProjectionAppend(a, [y, x], index);
      assert [x, y][..1] == [x] && [y, x][..1] == [y] && [x][..0] == [] && [y][..0] == [];
      assert Projection([x, y], index) == Projection([y, x], index);
    }
    SameProjectionsSameMap(a + [x, y] + b, a + [y, x] + b);
  }

  lemma {:induction false} ProjectionAppend(a: seq<Delta>, b: seq<Delta>, index: int)
    ensures Projection(a + b, index) == Projection(a, index) + Projection(b, index)
  {
    if b == [] {
      assert a + b == a;
    } else {
      ProjectionAppend(a, b[..|b| - 1], index);
      assert (a + b)[..|a + b| - 1] == a + b[..|b| - 1];
    }
  }

  // ----- the implementation -----

  lemma {:induction false} MergeAppend(a: seq<Delta>, d: Delta)
    ensures MergeAll(a + [d]) == Merge(MergeAll(a), d)
  {
    assert (a + [d])[..|a|] == a;
  }

  method MergeDelta(byIndex: Calls, d: Delta) returns (after: Calls)
    ensures after == Merge(byIndex, d)
  {
    after := byIndex;
    if d.index !in after {
      after := after[d.index := Opened(d)];
    }
    var c := after[d.index];
    if d.id.Some? && d.id.value != "" {
      c := c.(id := d.id.value);
    }
    if d.name != "" {
      c := c.(name := d.name);
    }
    c := c.(arguments := c.arguments + d.arguments);
    after := after[d.index := c];
  }

  method MergeChunk(byIndex: Calls, chunk: seq<Delta>, ghost before: seq<Delta>) returns (after: Calls)
    requires byIndex == MergeAll(before)
    ensures after == MergeAll(before + chunk)
  {
    hide Merge, MergeAll;
    after := byIndex;
    assert before + chunk[..0] == before;
    for j := 0 to |chunk|
      invariant after == MergeAll(before + chunk[..j])
    {
      assert before + chunk[..j + 1] == before + chunk[..j] + [chunk[j]];
      MergeAppend(before + chunk[..j], chunk[j]);
      after := MergeDelta(after, chunk[j]);
    }
    assert chunk[..|chunk|] == chunk;
  }

  method MergeChunks(chunks: seq<seq<Delta>>) returns (byIndex: Calls)
    ensures byIndex == MergeAll(Flatten(chunks))
  {
    byIndex := map[];
    for i := 0 to |chunks|
      invariant byIndex == MergeAll(Flatten(chunks[..i]))
    {
      hide MergeAll;
      assert chunks[..i + 1][..i] == chunks[..i];
      byIndex := MergeChunk(byIndex, chunks[i], Flatten(chunks[..i]));
    }
    assert chunks[..|chunks|] == chunks;
  }

  /** A stream's calls, reassembled per index and listed by increasing index. */
  ghost predicate ListsCalls(deltas: seq<Delta>, order: seq<int>, calls: seq<Call>) {
    && Increasing(order) && |calls| == |order|
    && (forall k :: k in order <==> Projection(deltas, k) != [])
    && forall i :: 0 <= i < |order| ==>
         Projection(deltas, order[i]) != [] && calls[i] == Reassembled(Projection(deltas, order[i]))
  }

  method StreamToolCalls(chunks: seq<seq<Delta>>) returns (order: seq<int>, calls: seq<Call>)
    ensures ListsCalls(Flatten(chunks), order, calls)
  {
    hide Reassembled, Projection, MergeAll, Flatten;
    var byIndex := MergeChunks(chunks);
    order := SortedKeys(byIndex);
    calls := [];
    forall k
      ensures k in byIndex <==> Projection(Flatten(chunks), k) != []
      ensures k in byIndex ==> byIndex[k] == Reassembled(Projection(Flatten(chunks), k))
    {
      MergedByProjection(Flatten(chunks), k);
    }
    for i := 0 to |order|
      invariant |calls| == i
      invariant forall j :: 0 <= j < i ==> order[j] in byIndex && calls[j] == byIndex[order[j]]
    {
      assert order[i] in order;
      calls := calls + [byIndex[order[i]]];
    }
  }

  /** Two streams with the same fragments per index give the same list of calls, however their
      fragments interleave and whatever chunks they come in. */
  lemma SameProjectionsSameCalls(a: seq<Delta>, b: seq<Delta>,
      order: seq<int>, calls: seq<Call>, order': seq<int>, calls': seq<Call>)
    requires forall index :: Projection(a, index) == Projection(b, index)
    requires ListsCalls(a, order, calls) && ListsCalls(b, order', calls')
    ensures order == order' && calls == calls'
  {
    hide Reassembled, Projection;
    OrderUnique(order, order');
  }
}
