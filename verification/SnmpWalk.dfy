/** Walking a table column by repeated GETNEXT. */
module SnmpWalk {
  import opened Wrappers
  import opened Oid
  import opened Selection

  datatype Entry = Entry(oid: Oid, value: string)

  /** What an agent answers past its last entry: an error status (noSuchName of SNMPv1), or, as section
      4.2.2 of RFC 3416 has it, the requested name again with the value endOfMibView and no error. */
  datatype PastTheEnd = ErrorStatus | EndOfMibView(text: string)

  /** An agent: its entries, its behaviour past the end, and the number of the request, if any, that
      meets no answer or an error. */
  datatype Agent = Agent(mib: seq<Entry>, end: PastTheEnd, lostAt: Option<nat>)

  datatype Answer = Failed | VarBind(oid: Oid, value: string)

  predicate Ordered(mib: seq<Entry>) {
    forall i, j :: 0 <= i < j < |mib| ==> InOrder(mib, i, j)
  }

  predicate InOrder(mib: seq<Entry>, i: nat, j: nat)
    requires i < |mib| && j < |mib|
  {
    Less(mib[i].oid, mib[j].oid)
  }

  /** The position of the first entry after a name, or the number of entries. */
  function FirstAfter(mib: seq<Entry>, oid: Oid): (i: nat)
    ensures i <= |mib|
  {
    if mib == [] || Less(oid, mib[0].oid) then 0 else 1 + FirstAfter(mib[1..], oid)
  }

  lemma {:induction false} FirstAfterFacts(mib: seq<Entry>, oid: Oid)
    ensures var i := FirstAfter(mib, oid);
            && (forall j :: 0 <= j < i ==> !Less(oid, mib[j].oid))
            && (i < |mib| ==> Less(oid, mib[i].oid))
  {
    if mib != [] && !Less(oid, mib[0].oid) {
      FirstAfterFacts(mib[1..], oid);
    }
  }

  /** The answer to the `asked`-th request, for a name. */
  function NextCmd(agent: Agent, request: Oid, asked: nat): Answer {
    if agent.lostAt == Some(asked) then Failed
    else
      var i := FirstAfter(agent.mib, request);
      if i < |agent.mib| then VarBind(agent.mib[i].oid, agent.mib[i].value)
      else
        match agent.end
        case ErrorStatus => Failed
        case EndOfMibView(text) => VarBind(request, text)
  }

  /** The name that a text denotes. */
  method Identify(text: string, ghost oid: Oid) returns (name: Oid)
    requires oid != [] && text == Render(oid)
    ensures name == oid
  {
    ParseRender(oid);
    name := Parse(text).value;
  }

  /** Removes NUL bytes. */
  function Clean(value: string): string {
    if value == "" then ""
    else if value[0] == '\0' then Clean(value[1..])
    else [value[0]] + Clean(value[1..])
  }

  /** No NUL is left, and a value without one is unchanged. */
  lemma {:induction false} CleanRemovesNul(value: string)
    ensures '\0' !in Clean(value)
    ensures '\0' !in value ==> Clean(value) == value
  {
    if value == "" {
    } else {
      CleanRemovesNul(value[1..]);
      assert value == [value[0]] + value[1..];
    }
  }

  lemma {:induction false} CleanSnoc(value: string, c: char)
    ensures Clean(value + [c]) == if c == '\0' then Clean(value) else Clean(value) + [c]
  {
    if value == "" {
      assert value + [c] == [c] && Clean([c][1..]) == "";
    } else {
      CleanSnoc(value[1..], c);
      assert (value + [c])[0] == value[0] && (value + [c])[1..] == value[1..] + [c];
    }
  }

  /** Every other character stays, once, in its order, and nothing is added. */
  lemma {:induction false} CleanKeepsOthers(value: string) returns (idx: seq<nat>)
    ensures Positions(idx, |value|) && forall i: nat :: i in idx <==> i < |value| && value[i] != '\0'
    ensures |Clean(value)| == |idx| && forall j :: 0 <= j < |idx| ==> Clean(value)[j] == value[idx[j]]
  {
    if value == "" {
      idx := [];
    } else {
      var n := |value| - 1;
      var before := CleanKeepsOthers(value[..n]);
      CleanSnoc(value[..n], value[n]);
      assert value == value[..n] + [value[n]];
      idx := Grown(before, n, value[n] != '\0');
      GrownPositions(before, n, value[n] != '\0');
    }
  }

  /** A dictionary in insertion order. */
  datatype Item = Item(key: string, value: string)

  function SetItem(d: seq<Item>, key: string, value: string): seq<Item> {
    if d == [] then [Item(key, value)]
    else if d[0].key == key then [Item(key, value)] + d[1..]
    else [d[0]] + SetItem(d[1..], key, value)
  }

  predicate DistinctKeys(d: seq<Item>) {
    forall i, j :: 0 <= i < j < |d| ==> d[i].key != d[j].key
  }

  datatype Walk = Running(current: Oid, results: seq<Item>) | Done(results: seq<Item>)

  /** One turn of the loop: the prefix test and the index are taken on the text of the answer. */
  function Turn(agent: Agent, column: string, current: Oid, results: seq<Item>, asked: nat): Walk {
    match NextCmd(agent, current, asked)
    case Failed => Done(results)
    case VarBind(oid, value) =>
      var text := Render(oid);
      if !StartsWith(text, column + ".") then Done(results)
      else Running(oid, SetItem(results, text[|column| + 1..], Clean(value)))
  }

  /** The walk from a name after at most `n` turns. */
  function After(agent: Agent, column: Oid, n: nat): Walk {
    if n == 0 then Running(column, [])
    else
      match After(agent, column, n - 1)
      case Done(results) => Done(results)
      case Running(current, results) => Turn(agent, Render(column), current, results, n - 1)
  }

  ghost predicate Stops(agent: Agent, column: Oid) {
    exists n: nat :: After(agent, column, n).Done?
  }

  // ---- The table of a column ----------------------------------------------------------------

  function ItemOf(column: Oid, e: Entry): Item
    requires Under(column, e.oid)
  {
    Item(Render(e.oid[|column|..]), Clean(e.value))
  }

  /** Every entry strictly under the column, keyed by the text of its remaining components, in the
      order of the agent. */
  function ColumnItems(column: Oid, mib: seq<Entry>): seq<Item> {
    if mib == [] then []
    else if Under(column, mib[0].oid) then [ItemOf(column, mib[0])] + ColumnItems(column, mib[1..])
    else ColumnItems(column, mib[1..])
  }

  /** The number of consecutive entries under the column, from a position on. */
  function BlockLength(column: Oid, mib: seq<Entry>, from: nat): (m: nat)
    requires from <= |mib|
    ensures from + m <= |mib|
    decreases |mib| - from
  {
    if from == |mib| || !Under(column, mib[from].oid) then 0 else 1 + BlockLength(column, mib, from + 1)
  }

  lemma {:induction false} BlockFacts(column: Oid, mib: seq<Entry>, from: nat)
    requires from <= |mib|
    ensures var m := BlockLength(column, mib, from);
            && (forall i :: from <= i < from + m ==> Under(column, mib[i].oid))
            && (from + m < |mib| ==> !Under(column, mib[from + m].oid))
    decreases |mib| - from
  {
    if from < |mib| && Under(column, mib[from].oid) {
      BlockFacts(column, mib, from + 1);
    }
  }

  /** In an ordered MIB the entries of a column are one block, right after the name of the column. */
  lemma ColumnIsBlock(column: Oid, mib: seq<Entry>, i: nat)
    requires Ordered(mib) && i < |mib| && Under(column, mib[i].oid)
    ensures var from := FirstAfter(mib, column); from <= i < from + BlockLength(column, mib, from)
  {
    var from := FirstAfter(mib, column);
    var m := BlockLength(column, mib, from);
    FirstAfterFacts(mib, column);
    BlockFacts(column, mib, from);
    UnderIsAfter(column, mib[i].oid);
    if i >= from + m {
      if i > from + m {
        StillAfter(column, mib, from, from + m);
        assert InOrder(mib, from + m, i);
        SubtreeIsInterval(column, mib[from + m].oid, mib[i].oid);
      }
      assert false;
    }
  }

  lemma StillAfter(column: Oid, mib: seq<Entry>, from: nat, i: nat)
    requires Ordered(mib) && from <= i < |mib| && Less(column, mib[from].oid)
    ensures Less(column, mib[i].oid)
  {
    if from < i {
      assert InOrder(mib, from, i);
      LessTransitive(column, mib[from].oid, mib[i].oid);
    }
  }

  lemma {:induction false} NoItems(column: Oid, mib: seq<Entry>)
    requires forall i :: 0 <= i < |mib| ==> !Under(column, mib[i].oid)
    ensures ColumnItems(column, mib) == []
  {
    if mib == [] {
    } else {
      NoItems(column, mib[1..]);
    }
  }

  lemma {:induction false} ItemsAppend(column: Oid, a: seq<Entry>, b: seq<Entry>)
    ensures ColumnItems(column, a + b) == ColumnItems(column, a) + ColumnItems(column, b)
  {
    if a == [] {
      assert a + b == b;
    } else {
      ItemsAppend(column, a[1..], b);
      assert (a + b)[1..] == a[1..] + b;
    }
  }

  /** The items of the first `n` entries of the block. */
  function BlockItems(column: Oid, mib: seq<Entry>, n: nat): seq<Item>
    requires FirstAfter(mib, column) + n <= |mib|
  {
    ColumnItems(column, mib[FirstAfter(mib, column)..FirstAfter(mib, column) + n])
  }

  lemma BlockIsWholeColumn(column: Oid, mib: seq<Entry>, from: nat, m: nat)
    requires Ordered(mib) && from == FirstAfter(mib, column) && m == BlockLength(column, mib, from)
    ensures BlockItems(column, mib, m) == ColumnItems(column, mib)
  {
    forall i | 0 <= i < |mib| && Under(column, mib[i].oid)
      ensures from <= i < from + m
    {
      ColumnIsBlock(column, mib, i);
    }
    OnlyTheMiddle(column, mib, from, from + m);
  }

  lemma OnlyTheMiddle(column: Oid, mib: seq<Entry>, from: nat, until: nat)
    requires from <= until <= |mib|
    requires forall i :: 0 <= i < |mib| && Under(column, mib[i].oid) ==> from <= i < until
    ensures ColumnItems(column, mib[from..until]) == ColumnItems(column, mib)
  {
    var before, block, behind := mib[..from], mib[from..until], mib[until..];
    forall i | 0 <= i < |behind|
      ensures !Under(column, behind[i].oid)
    {
      assert behind[i] == mib[until + i];
    }
    NoItems(column, before);
    NoItems(column, behind);
    assert mib == before + (block + behind);
    ItemsAppend(column, before, block + behind);
    ItemsAppend(column, block, behind);
  }

  lemma {:induction false} ItemsMembers(column: Oid, mib: seq<Entry>)
    ensures forall x :: x in ColumnItems(column, mib) <==>
                        exists e :: e in mib && Under(column, e.oid) && x == ItemOf(column, e)
  {
    if mib == [] {
    } else {
      ItemsMembers(column, mib[1..]);
      assert forall e :: e in mib <==> e == mib[0] || e in mib[1..];
    }
  }

  /** Different names under a column have different index texts. */
  lemma IndexTextsDiffer(column: Oid, a: Oid, b: Oid)
    requires Under(column, a) && Under(column, b) && a != b
    ensures Render(a[|column|..]) != Render(b[|column|..])
  {
    ParseRender(a[|column|..]);
    ParseRender(b[|column|..]);
    assert a == a[..|column|] + a[|column|..] && b == b[..|column|] + b[|column|..];
  }

  lemma OrderedTail(mib: seq<Entry>)
    requires Ordered(mib) && mib != []
    ensures Ordered(mib[1..])
  {
    forall i, j | 0 <= i < j < |mib| - 1
      ensures InOrder(mib[1..], i, j)
    {
      assert InOrder(mib, i + 1, j + 1);
    }
  }

  lemma {:induction false} ItemsHaveDistinctKeys(column: Oid, mib: seq<Entry>)
    requires Ordered(mib)
    ensures DistinctKeys(ColumnItems(column, mib))
  {
    if mib == [] {
    } else {
      OrderedTail(mib);
      ItemsHaveDistinctKeys(column, mib[1..]);
      if Under(column, mib[0].oid) {
        var rest := ColumnItems(column, mib[1..]);
        forall k | 0 <= k < |rest|
          ensures rest[k].key != ItemOf(column, mib[0]).key
        {
          ItemsMembers(column, mib[1..]);
          assert rest[k] in rest;
          var e :| e in mib[1..] && Under(column, e.oid) && rest[k] == ItemOf(column, e);
          var j :| 1 <= j < |mib| && mib[j] == e;
          assert InOrder(mib, 0, j);
          LessIrreflexive(e.oid);
          IndexTextsDiffer(column, mib[0].oid, e.oid);
        }
      }
    }
  }

  lemma {:induction false} SetNewItem(d: seq<Item>, key: string, value: string)
    requires forall i :: 0 <= i < |d| ==> d[i].key != key
    ensures SetItem(d, key, value) == d + [Item(key, value)]
  {
    if d == [] {
    } else {
      SetNewItem(d[1..], key, value);
      assert d == [d[0]] + d[1..];
    }
  }

  // ---- The walk along the block -------------------------------------------------------------

  /** The name asked for after `n` entries: the column itself, then the last entry received. */
  function NameAfter(column: Oid, mib: seq<Entry>, n: nat): Oid
    requires FirstAfter(mib, column) + n <= |mib|
  {
    if n == 0 then column else mib[FirstAfter(mib, column) + n - 1].oid
  }

  lemma NextIsNext(column: Oid, mib: seq<Entry>, n: nat)
    requires Ordered(mib) && FirstAfter(mib, column) + n <= |mib|
    ensures FirstAfter(mib, NameAfter(column, mib, n)) == FirstAfter(mib, column) + n
  {
    if n > 0 {
      var at := FirstAfter(mib, column) + n - 1;
      var i := FirstAfter(mib, mib[at].oid);
      FirstAfterFacts(mib, mib[at].oid);
      if i <= at {
        LessIrreflexive(mib[at].oid);
        if i < at {
          assert InOrder(mib, i, at);
          LessTransitive(mib[i].oid, mib[at].oid, mib[i].oid);
          LessIrreflexive(mib[i].oid);
        }
        assert false;
      }
      assert at + 1 < |mib| ==> InOrder(mib, at, at + 1);
    }
  }

  /** The name asked for after the first `n` entries of a block. */
  function NameIn(column: Oid, block: seq<Entry>, n: nat): Oid
    requires n <= |block|
  {
    if n == 0 then column else block[n - 1].oid
  }

  /** The agent answers the request after `i` entries of the block with the next one, a new index. */
  predicate ServesAt(agent: Agent, column: Oid, block: seq<Entry>, i: nat)
    requires i < |block|
  {
    var e := block[i];
    && Under(column, e.oid)
    && NextCmd(agent, NameIn(column, block, i), i) == VarBind(e.oid, e.value)
    && SetItem(ColumnItems(column, block[..i]), ItemOf(column, e).key, ItemOf(column, e).value) ==
       ColumnItems(column, block[..i + 1])
  }

  lemma {:induction false} WalkAlong(agent: Agent, column: Oid, block: seq<Entry>, n: nat)
    requires column != [] && n <= |block|
    requires forall i :: 0 <= i < |block| ==> ServesAt(agent, column, block, i)
    ensures After(agent, column, n) == Running(NameIn(column, block, n), ColumnItems(column, block[..n]))
  {
    if n > 0 {
      WalkAlong(agent, column, block, n - 1);
      assert ServesAt(agent, column, block, n - 1);
      TurnOnEntry(agent, column, NameIn(column, block, n - 1), ColumnItems(column, block[..n - 1]), n - 1, block[n - 1],
                  ColumnItems(column, block[..n]));
    }
  }

  /** As long as the block lasts and no request is lost, the walk holds exactly the entries received. */
  lemma WalkFollowsBlock(agent: Agent, column: Oid, n: nat)
    requires Ordered(agent.mib) && column != []
    requires n <= BlockLength(column, agent.mib, FirstAfter(agent.mib, column))
    requires agent.lostAt.Some? ==> n <= agent.lostAt.value
    ensures After(agent, column, n) == Running(NameAfter(column, agent.mib, n), BlockItems(column, agent.mib, n))
  {
    var from := FirstAfter(agent.mib, column);
    var block := agent.mib[from..from + n];
    BlockNames(column, agent.mib, n, from, block);
    WalkAlongServed(agent, column, n, from, block);
  }

  lemma BlockNames(column: Oid, mib: seq<Entry>, n: nat, from: nat, block: seq<Entry>)
    requires from == FirstAfter(mib, column) && from + n <= |mib| && block == mib[from..from + n]
    ensures NameIn(column, block, n) == NameAfter(column, mib, n)
    ensures ColumnItems(column, block[..n]) == BlockItems(column, mib, n)
  {
    assert block[..n] == block;
  }

  lemma WalkAlongServed(agent: Agent, column: Oid, n: nat, from: nat, block: seq<Entry>)
    requires Ordered(agent.mib) && column != [] && from == FirstAfter(agent.mib, column)
    requires n <= BlockLength(column, agent.mib, from) && block == agent.mib[from..from + n]
    requires agent.lostAt.Some? ==> n <= agent.lostAt.value
    ensures After(agent, column, n) == Running(NameIn(column, block, n), ColumnItems(column, block[..n]))
  {
    BlockIsServed(agent, column, n, from, block);
    WalkAlong(agent, column, block, n);
  }

  lemma BlockIsServed(agent: Agent, column: Oid, n: nat, from: nat, block: seq<Entry>)
    requires Ordered(agent.mib) && column != [] && from == FirstAfter(agent.mib, column)
    requires n <= BlockLength(column, agent.mib, from) && block == agent.mib[from..from + n]
    requires agent.lostAt.Some? ==> n <= agent.lostAt.value
    ensures forall i :: 0 <= i < |block| ==> ServesAt(agent, column, block, i)
  {
    forall i | 0 <= i < n
      ensures ServesAt(agent, column, block, i)
    {
      EntryIsServed(agent, column, n, from, block, i);
    }
  }

  lemma EntryIsServed(agent: Agent, column: Oid, n: nat, from: nat, block: seq<Entry>, i: nat)
    requires Ordered(agent.mib) && column != [] && from == FirstAfter(agent.mib, column)
    requires n <= BlockLength(column, agent.mib, from) && block == agent.mib[from..from + n]
    requires agent.lostAt.Some? ==> n <= agent.lostAt.value
    requires i < n
    ensures ServesAt(agent, column, block, i)
  {
    var e := agent.mib[from + i];
    assert Under(column, e.oid) by {
      BlockFacts(column, agent.mib, from);
    }
    assert NextCmd(agent, NameIn(column, block, i), i) == VarBind(e.oid, e.value) by {
      assert i > 0 ==> block[i - 1] == agent.mib[from + i - 1];
      AnswerAlongBlock(agent, column, i);
    }
    SliceIsServed(column, agent.mib, from, n, i, block);
  }

  lemma SliceIsServed(column: Oid, mib: seq<Entry>, from: nat, n: nat, i: nat, block: seq<Entry>)
    requires Ordered(mib) && from + n <= |mib| && i < n && block == mib[from..from + n]
    requires Under(column, mib[from + i].oid)
    ensures block[i] == mib[from + i]
    ensures var item := ItemOf(column, mib[from + i]);
            SetItem(ColumnItems(column, block[..i]), item.key, item.value) == ColumnItems(column, block[..i + 1])
  {
    SliceOfSlice(mib, from, n, i);
    SliceOfSlice(mib, from, n, i + 1);
    SliceGrows(column, mib, from, i + 1);
  }

  lemma TurnOnEntry(agent: Agent, column: Oid, current: Oid, results: seq<Item>, asked: nat, e: Entry,
                    longer: seq<Item>)
    requires column != [] && Under(column, e.oid) && NextCmd(agent, current, asked) == VarBind(e.oid, e.value)
    requires SetItem(results, ItemOf(column, e).key, ItemOf(column, e).value) == longer
    ensures Turn(agent, Render(column), current, results, asked) == Running(e.oid, longer)
  {
    PrefixTestMeansUnder(column, e.oid);
  }

  /** Asked for the name after `n` entries, the agent answers with the entry after it, if there is one. */
  lemma AnswerAlongBlock(agent: Agent, column: Oid, n: nat)
    requires Ordered(agent.mib) && column != [] && agent.lostAt != Some(n)
    requires n <= BlockLength(column, agent.mib, FirstAfter(agent.mib, column))
    ensures var i := FirstAfter(agent.mib, column) + n;
            NextCmd(agent, NameAfter(column, agent.mib, n), n) ==
            if i < |agent.mib| then VarBind(agent.mib[i].oid, agent.mib[i].value)
            else if agent.end.ErrorStatus? then Failed
            else VarBind(NameAfter(column, agent.mib, n), agent.end.text)
  {
    NextIsNext(column, agent.mib, n);
  }

  lemma SliceOfSlice(mib: seq<Entry>, from: nat, n: nat, i: nat)
    requires i <= n && from + n <= |mib|
    ensures mib[from..from + n][..i] == mib[from..from + i]
  {
  }

  lemma SliceGrows(column: Oid, mib: seq<Entry>, from: nat, n: nat)
    requires Ordered(mib) && 0 < n && from + n <= |mib| && Under(column, mib[from + n - 1].oid)
    ensures var item := ItemOf(column, mib[from + n - 1]);
            SetItem(ColumnItems(column, mib[from..from + n - 1]), item.key, item.value) ==
            ColumnItems(column, mib[from..from + n])
  {
    var block, e := mib[from..from + n - 1], mib[from + n - 1];
    assert mib[from..from + n] == block + [e];
    forall i, j | 0 <= i < j < |block + [e]|
      ensures InOrder(block + [e], i, j)
    {
      assert InOrder(mib, from + i, from + j);
    }
    EntriesGrow(column, block, e);
  }

  lemma EntriesGrow(column: Oid, entries: seq<Entry>, e: Entry)
    requires Ordered(entries + [e]) && Under(column, e.oid)
    ensures var item := ItemOf(column, e);
            SetItem(ColumnItems(column, entries), item.key, item.value) == ColumnItems(column, entries + [e])
  {
    var before, item := ColumnItems(column, entries), ItemOf(column, e);
    ItemsAppend(column, entries, [e]);
    assert ColumnItems(column, [e]) == [item];
    ItemsHaveDistinctKeys(column, entries + [e]);
    assert forall i :: 0 <= i < |before| ==> (before + [item])[i] == before[i];
    assert (before + [item])[|before|] == item;
    SetNewItem(before, item.key, item.value);
  }

  // ---- When the walk stops, and with what ---------------------------------------------------

  function ColumnLength(agent: Agent, column: Oid): nat {
    BlockLength(column, agent.mib, FirstAfter(agent.mib, column))
  }

  /** The MIB ends inside the column. */
  predicate EndsInside(agent: Agent, column: Oid) {
    agent.mib != [] && Under(column, agent.mib[|agent.mib| - 1].oid)
  }

  /** Past its end the agent repeats a name that lies inside the column. */
  predicate Echoes(agent: Agent, column: Oid) {
    agent.end.EndOfMibView? && EndsInside(agent, column)
  }

  lemma TurnOnOutsider(agent: Agent, column: Oid, current: Oid, results: seq<Item>, asked: nat, oid: Oid, value: string)
    requires column != [] && oid != [] && !Under(column, oid) && NextCmd(agent, current, asked) == VarBind(oid, value)
    ensures Turn(agent, Render(column), current, results, asked) == Done(results)
  {
    PrefixTestMeansUnder(column, oid);
  }

  /** After the block of the column the walk stops, unless the agent has nothing more and repeats a
      name inside the column. */
  lemma TurnAfterBlock(agent: Agent, column: Oid)
    requires Ordered(agent.mib) && column != [] && !Echoes(agent, column)
    requires agent.lostAt != Some(ColumnLength(agent, column))
    ensures var n := ColumnLength(agent, column);
            var items := BlockItems(column, agent.mib, n);
            Turn(agent, Render(column), NameAfter(column, agent.mib, n), items, n) == Done(items)
  {
    var n := ColumnLength(agent, column);
    var i := FirstAfter(agent.mib, column) + n;
    var name, items := NameAfter(column, agent.mib, n), BlockItems(column, agent.mib, n);
    AnswerAlongBlock(agent, column, n);
    if i < |agent.mib| {
      NextIsOutside(agent, column, i);
      TurnOnOutsider(agent, column, name, items, n, agent.mib[i].oid, agent.mib[i].value);
    } else if agent.end.EndOfMibView? {
      NothingInside(agent, column);
      TurnOnOutsider(agent, column, name, items, n, column, agent.end.text);
    }
  }

  lemma NextIsOutside(agent: Agent, column: Oid, i: nat)
    requires Ordered(agent.mib) && i == FirstAfter(agent.mib, column) + ColumnLength(agent, column) < |agent.mib|
    ensures agent.mib[i].oid != [] && !Under(column, agent.mib[i].oid)
  {
    NotEmpty(agent.mib, column, i);
    BlockFacts(column, agent.mib, FirstAfter(agent.mib, column));
  }

  lemma NothingInside(agent: Agent, column: Oid)
    requires Ordered(agent.mib) && !EndsInside(agent, column)
    requires FirstAfter(agent.mib, column) + ColumnLength(agent, column) == |agent.mib|
    ensures ColumnLength(agent, column) == 0
  {
    BlockFacts(column, agent.mib, FirstAfter(agent.mib, column));
  }

  lemma NotEmpty(mib: seq<Entry>, column: Oid, i: nat)
    requires Ordered(mib) && FirstAfter(mib, column) <= i < |mib|
    ensures mib[i].oid != []
  {
    FirstAfterFacts(mib, column);
    StillAfter(column, mib, FirstAfter(mib, column), i);
  }

  /** Replaces the value of the last item. */
  function Overwritten(items: seq<Item>, value: string): seq<Item>
    requires items != []
  {
    items[..|items| - 1] + [Item(items[|items| - 1].key, value)]
  }

  lemma {:induction false} SetLastItem(d: seq<Item>, value: string)
    requires d != [] && DistinctKeys(d)
    ensures SetItem(d, d[|d| - 1].key, value) == Overwritten(d, value)
  {
    if |d| > 1 {
      SetLastItem(d[1..], value);
      assert d[..|d| - 1] == [d[0]] + d[1..][..|d| - 2];
    } else {
      assert d[1..] == [];
    }
  }

  /** The column with the text of endOfMibView in place of its last value. */
  function Echoed(agent: Agent, column: Oid): seq<Item>
    requires agent.end.EndOfMibView? && ColumnItems(column, agent.mib) != []
  {
    Overwritten(ColumnItems(column, agent.mib), Clean(agent.end.text))
  }

  /** Past the block of a column at the very end of a MIB, an agent that repeats the name keeps the walk
      going, and the text of endOfMibView takes the place of the last value. */
  lemma WalkStaysAtEnd(agent: Agent, column: Oid, n: nat)
    requires Ordered(agent.mib) && column != [] && Echoes(agent, column) && n > ColumnLength(agent, column)
    requires agent.lostAt.Some? ==> n <= agent.lostAt.value
    ensures Echoing(agent, column, After(agent, column, n))
  {
    EchoBegins(agent, column, ColumnLength(agent, column));
    EchoGoesOn(agent, column, ColumnLength(agent, column) + 1, n);
  }

  lemma EchoBegins(agent: Agent, column: Oid, m: nat)
    requires Ordered(agent.mib) && column != [] && Echoes(agent, column) && m == ColumnLength(agent, column)
    requires agent.lostAt.Some? ==> m < agent.lostAt.value
    ensures Echoing(agent, column, After(agent, column, m + 1))
  {
    LastItem(agent, column);
    WalkReachesEnd(agent, column);
    EchoTurn(agent, column, ColumnItems(column, agent.mib), m);
  }

  /** The walk asks for the last name again, with the last value already replaced. */
  predicate Echoing(agent: Agent, column: Oid, w: Walk) {
    && Echoes(agent, column) && ColumnItems(column, agent.mib) != []
    && w == Running(agent.mib[|agent.mib| - 1].oid, Echoed(agent, column))
  }

  lemma {:induction false} EchoGoesOn(agent: Agent, column: Oid, n: nat, k: nat)
    requires Ordered(agent.mib) && column != [] && n <= k && (agent.lostAt.Some? ==> k <= agent.lostAt.value)
    requires Echoing(agent, column, After(agent, column, n))
    ensures Echoing(agent, column, After(agent, column, k))
    decreases k - n
  {
    if n < k {
      EchoTwice(agent, column, n);
      EchoGoesOn(agent, column, n + 1, k);
    }
  }

  lemma EchoTwice(agent: Agent, column: Oid, asked: nat)
    requires Ordered(agent.mib) && column != [] && Echoes(agent, column) && agent.lostAt != Some(asked)
    requires ColumnItems(column, agent.mib) != []
    ensures var last := agent.mib[|agent.mib| - 1].oid;
            Turn(agent, Render(column), last, Echoed(agent, column), asked) == Running(last, Echoed(agent, column))
  {
    LastItem(agent, column);
    OverwrittenTwice(ColumnItems(column, agent.mib), Clean(agent.end.text));
    EchoTurn(agent, column, Echoed(agent, column), asked);
  }

  lemma OverwrittenTwice(items: seq<Item>, value: string)
    requires items != [] && DistinctKeys(items)
    ensures var once := Overwritten(items, value);
            && DistinctKeys(once) && once[|once| - 1].key == items[|items| - 1].key
            && Overwritten(once, value) == once
  {
  }

  lemma WalkReachesEnd(agent: Agent, column: Oid)
    requires Ordered(agent.mib) && column != [] && EndsInside(agent, column)
    requires agent.lostAt.Some? ==> ColumnLength(agent, column) <= agent.lostAt.value
    ensures After(agent, column, ColumnLength(agent, column)) ==
            Running(agent.mib[|agent.mib| - 1].oid, ColumnItems(column, agent.mib))
  {
    BlockEndsWithMib(agent, column, ColumnLength(agent, column));
    WalkFollowsBlock(agent, column, ColumnLength(agent, column));
  }

  lemma BlockEndsWithMib(agent: Agent, column: Oid, m: nat)
    requires Ordered(agent.mib) && EndsInside(agent, column) && m == ColumnLength(agent, column)
    ensures NameAfter(column, agent.mib, m) == agent.mib[|agent.mib| - 1].oid
    ensures BlockItems(column, agent.mib, m) == ColumnItems(column, agent.mib)
  {
    BlockEndsMib(agent, column);
    BlockIsWholeColumn(column, agent.mib, FirstAfter(agent.mib, column), ColumnLength(agent, column));
  }

  lemma LastItem(agent: Agent, column: Oid)
    requires Ordered(agent.mib) && EndsInside(agent, column)
    ensures var items := ColumnItems(column, agent.mib);
            items != [] && items[|items| - 1] == ItemOf(column, agent.mib[|agent.mib| - 1]) && DistinctKeys(items)
  {
    var n := |agent.mib| - 1;
    ItemsAppend(column, agent.mib[..n], [agent.mib[n]]);
    assert agent.mib == agent.mib[..n] + [agent.mib[n]];
    assert ColumnItems(column, [agent.mib[n]]) == [ItemOf(column, agent.mib[n])];
    ItemsHaveDistinctKeys(column, agent.mib);
  }

  lemma EchoTurn(agent: Agent, column: Oid, items: seq<Item>, asked: nat)
    requires Ordered(agent.mib) && column != [] && Echoes(agent, column) && agent.lostAt != Some(asked)
    requires items != [] && DistinctKeys(items)
    requires items[|items| - 1].key == ItemOf(column, agent.mib[|agent.mib| - 1]).key
    ensures var last := agent.mib[|agent.mib| - 1].oid;
            Turn(agent, Render(column), last, items, asked) ==
            Running(last, Overwritten(items, Clean(agent.end.text)))
  {
    var last := agent.mib[|agent.mib| - 1].oid;
    NothingAfterLast(agent.mib);
    SetLastItem(items, Clean(agent.end.text));
    TurnOnEntry(agent, column, last, items, asked, Entry(last, agent.end.text),
                Overwritten(items, Clean(agent.end.text)));
  }

  lemma BlockEndsMib(agent: Agent, column: Oid)
    requires Ordered(agent.mib) && EndsInside(agent, column)
    ensures 0 < ColumnLength(agent, column)
    ensures FirstAfter(agent.mib, column) + ColumnLength(agent, column) == |agent.mib|
  {
    ColumnIsBlock(column, agent.mib, |agent.mib| - 1);
  }

  lemma NothingAfterLast(mib: seq<Entry>)
    requires Ordered(mib) && mib != []
    ensures FirstAfter(mib, mib[|mib| - 1].oid) == |mib|
  {
    var last := mib[|mib| - 1].oid;
    var i := FirstAfter(mib, last);
    FirstAfterFacts(mib, last);
    LessIrreflexive(last);
    if i < |mib| - 1 {
      assert InOrder(mib, i, |mib| - 1);
      LessTransitive(last, mib[i].oid, last);
    }
  }

  /** What the walk returns: the whole column; or, when a request of the column is lost, the entries
      received before it; or, when a request is lost only after an agent has begun to repeat its last
      name, the column with the last value replaced by the text of endOfMibView. */
  function WalkResult(agent: Agent, column: Oid): seq<Item> {
    var items := ColumnItems(column, agent.mib);
    if agent.lostAt.Some? && agent.lostAt.value <= |items| then items[..agent.lostAt.value]
    else if Echoes(agent, column) && items != [] then Echoed(agent, column)
    else items
  }

  lemma {:induction false} DoneStaysDone(agent: Agent, column: Oid, n: nat, k: nat)
    requires n <= k && After(agent, column, n).Done?
    ensures After(agent, column, k) == After(agent, column, n)
  {
    if n < k {
      DoneStaysDone(agent, column, n, k - 1);
    }
  }

  /** The walk stops exactly when a request is lost, or the agent reports its end as an error, or its
      last entry lies outside the column. An agent that follows section 4.2.2 of RFC 3416 and ends
      inside the column is asked for its last name for ever: the loop never looks at the value. */
  lemma WalkStopsIff(agent: Agent, column: Oid)
    requires Ordered(agent.mib) && column != []
    ensures Stops(agent, column) <==>
            agent.lostAt.Some? || agent.end.ErrorStatus? || !EndsInside(agent, column)
  {
    if agent.lostAt.Some? {
      LostRequestStops(agent, column);
    } else if agent.end.ErrorStatus? || !EndsInside(agent, column) {
      WalkFollowsBlock(agent, column, ColumnLength(agent, column));
      TurnAfterBlock(agent, column);
      assert After(agent, column, ColumnLength(agent, column) + 1).Done?;
    } else {
      forall n: nat
        ensures After(agent, column, n).Running?
      {
        if n <= ColumnLength(agent, column) {
          WalkFollowsBlock(agent, column, n);
        } else {
          WalkStaysAtEnd(agent, column, n);
        }
      }
    }
  }

  /** An agent with a single entry, inside the column, that answers as section 4.2.2 of RFC 3416 has it: the
      walk never ends, and from the second answer on it holds the text of endOfMibView for the entry. */
  lemma EndlessWalk(agent: Agent, column: Oid, n: nat)
    requires agent == Agent([Entry(column + [1], "x")], EndOfMibView("end"), None) && column != []
    ensures !Stops(agent, column)
    ensures n > 1 ==> After(agent, column, n) == Running(column + [1], [Item("1", "end")])
  {
    WalkStopsIff(agent, column);
    var items := ColumnItems(column, agent.mib);
    assert (column + [1])[|column|..] == [1] && Render([1]) == "1";
    CleanRemovesNul("end");
    assert (column + [1])[..|column|] == column && agent.mib[1..] == [];
    assert Under(column, column + [1]) && ColumnItems(column, []) == [];
    assert ColumnItems(column, agent.mib) == [ItemOf(column, agent.mib[0])];
    assert items == [Item("1", Clean("x"))];
    if n > 1 {
      WalkStaysAtEnd(agent, column, n);
    }
  }

  lemma LostRequestStops(agent: Agent, column: Oid)
    requires agent.lostAt.Some?
    ensures Stops(agent, column)
  {
    assert After(agent, column, agent.lostAt.value + 1).Done?;
  }

  lemma {:induction false} ItemsOfBlock(column: Oid, block: seq<Entry>, k: nat)
    requires forall i :: 0 <= i < |block| ==> Under(column, block[i].oid)
    requires k <= |block|
    ensures |ColumnItems(column, block)| == |block|
    ensures ColumnItems(column, block[..k]) == ColumnItems(column, block)[..k]
  {
    if block == [] {
    } else {
      ItemsOfBlock(column, block[1..], if k == 0 then 0 else k - 1);
      if k > 0 {
        assert block[..k][1..] == block[1..][..k - 1];
      }
    }
  }

  /** Whenever the walk stops it returns exactly the entries of the column, keyed by the text of their
      remaining components, cleaned, with distinct keys and in the order of the agent; or, when a
      request was lost, exactly those received before it, the last with the text of endOfMibView for its
      value if the agent had begun to repeat its last name. */
  lemma WalkReturnsColumn(agent: Agent, column: Oid, n: nat)
    requires Ordered(agent.mib) && column != [] && After(agent, column, n).Done?
    ensures After(agent, column, n).results == WalkResult(agent, column)
    ensures DistinctKeys(WalkResult(agent, column))
  {
    ItemsHaveDistinctKeys(column, agent.mib);
    assert Stops(agent, column);
    WalkStopsIff(agent, column);
    ColumnCount(agent, column);
    var k: nat;
    if agent.lostAt.Some? && agent.lostAt.value <= ColumnLength(agent, column) {
      k := LossInColumn(agent, column);
    } else if !Echoes(agent, column) {
      k := EndOfColumn(agent, column);
    } else {
      k := LossInEcho(agent, column);
    }
    SameEnd(agent, column, n, k);
  }

  lemma ColumnCount(agent: Agent, column: Oid)
    requires Ordered(agent.mib)
    ensures |ColumnItems(column, agent.mib)| == ColumnLength(agent, column)
  {
    var from, m := FirstAfter(agent.mib, column), ColumnLength(agent, column);
    BlockIsWholeColumn(column, agent.mib, FirstAfter(agent.mib, column), ColumnLength(agent, column));
    BlockFacts(column, agent.mib, from);
    ItemsOfBlock(column, agent.mib[from..from + m], m);
  }

  lemma FirstOfColumn(agent: Agent, column: Oid, k: nat)
    requires Ordered(agent.mib) && k <= ColumnLength(agent, column)
    ensures k <= |ColumnItems(column, agent.mib)|
    ensures BlockItems(column, agent.mib, k) == ColumnItems(column, agent.mib)[..k]
  {
    var from, m := FirstAfter(agent.mib, column), ColumnLength(agent, column);
    FirstOfBlock(column, agent.mib, m, k);
    BlockIsWholeColumn(column, agent.mib, from, m);
  }

  lemma FirstOfBlock(column: Oid, mib: seq<Entry>, m: nat, k: nat)
    requires m == BlockLength(column, mib, FirstAfter(mib, column)) && k <= m
    ensures |BlockItems(column, mib, m)| == m
    ensures BlockItems(column, mib, k) == BlockItems(column, mib, m)[..k]
  {
    var from := FirstAfter(mib, column);
    assert |ColumnItems(column, mib[from..from + m])| == m &&
           ColumnItems(column, mib[from..from + k]) == ColumnItems(column, mib[from..from + m])[..k] by {
      BlockFacts(column, mib, from);
      SliceItems(column, mib, from, m, k);
    }
  }

  lemma SliceItems(column: Oid, mib: seq<Entry>, from: nat, m: nat, k: nat)
    requires k <= m && from + m <= |mib| && forall i :: from <= i < from + m ==> Under(column, mib[i].oid)
    ensures |ColumnItems(column, mib[from..from + m])| == m
    ensures ColumnItems(column, mib[from..from + k]) == ColumnItems(column, mib[from..from + m])[..k]
  {
    var block := mib[from..from + m];
    ItemsOfBlock(column, block, k);
    assert mib[from..from + k] == block[..k];
  }

  lemma LossInColumn(agent: Agent, column: Oid) returns (k: nat)
    requires Ordered(agent.mib) && column != []
    requires agent.lostAt.Some? && agent.lostAt.value <= ColumnLength(agent, column)
    ensures agent.lostAt.value <= |ColumnItems(column, agent.mib)|
    ensures After(agent, column, k) == Done(ColumnItems(column, agent.mib)[..agent.lostAt.value])
  {
    k := agent.lostAt.value + 1;
    FirstOfColumn(agent, column, k - 1);
    assert After(agent, column, k - 1) ==
           Running(NameAfter(column, agent.mib, k - 1), ColumnItems(column, agent.mib)[..k - 1]) by {
      WalkFollowsBlock(agent, column, k - 1);
    }
    TurnOnLoss(agent, Render(column), NameAfter(column, agent.mib, k - 1), ColumnItems(column, agent.mib)[..k - 1],
               k - 1);
  }

  lemma TurnOnLoss(agent: Agent, column: string, current: Oid, results: seq<Item>, asked: nat)
    requires agent.lostAt == Some(asked)
    ensures Turn(agent, column, current, results, asked) == Done(results)
  {
  }

  lemma EndOfColumn(agent: Agent, column: Oid) returns (k: nat)
    requires Ordered(agent.mib) && column != [] && !Echoes(agent, column)
    requires agent.lostAt.Some? ==> ColumnLength(agent, column) < agent.lostAt.value
    ensures After(agent, column, k) == Done(ColumnItems(column, agent.mib))
  {
    var m := ColumnLength(agent, column);
    k := m + 1;
    assert BlockItems(column, agent.mib, m) == ColumnItems(column, agent.mib) by {
      BlockIsWholeColumn(column, agent.mib, FirstAfter(agent.mib, column), m);
    }
    assert After(agent, column, m) == Running(NameAfter(column, agent.mib, m), BlockItems(column, agent.mib, m)) by {
      WalkFollowsBlock(agent, column, m);
    }
    TurnAfterBlock(agent, column);
    NextTurn(agent, column, m, NameAfter(column, agent.mib, m), BlockItems(column, agent.mib, m));
  }

  lemma NextTurn(agent: Agent, column: Oid, n: nat, current: Oid, results: seq<Item>)
    requires After(agent, column, n) == Running(current, results)
    ensures After(agent, column, n + 1) == Turn(agent, Render(column), current, results, n)
  {
  }

  lemma LossInEcho(agent: Agent, column: Oid) returns (k: nat)
    requires Ordered(agent.mib) && column != [] && Echoes(agent, column)
    requires agent.lostAt.Some? && ColumnLength(agent, column) < agent.lostAt.value
    ensures ColumnItems(column, agent.mib) != []
    ensures After(agent, column, k) == Done(Echoed(agent, column))
  {
    k := agent.lostAt.value + 1;
    WalkStaysAtEnd(agent, column, k - 1);
    TurnOnLoss(agent, Render(column), agent.mib[|agent.mib| - 1].oid, Echoed(agent, column), k - 1);
  }

  lemma SameEnd(agent: Agent, column: Oid, n: nat, k: nat)
    requires After(agent, column, n).Done? && After(agent, column, k).Done?
    ensures After(agent, column, n) == After(agent, column, k)
  {
    if n <= k {
      DoneStaysDone(agent, column, n, k);
    } else {
      DoneStaysDone(agent, column, k, n);
    }
  }

  /** Without lost requests and without echo the result is the column: every entry strictly under it and
      nothing else, each under its own index. */
  lemma CleanWalkIsColumn(agent: Agent, column: Oid)
    requires Ordered(agent.mib) && agent.lostAt.None? && !Echoes(agent, column)
    ensures WalkResult(agent, column) == ColumnItems(column, agent.mib)
    ensures forall x :: x in WalkResult(agent, column) <==>
                        exists e :: e in agent.mib && Under(column, e.oid) && x == ItemOf(column, e)
  {
    ItemsMembers(column, agent.mib);
  }

  /** The items of the entries at some positions: the text of the components behind the column, and the value
      without NUL. */
  function ItemsAt(column: Oid, mib: seq<Entry>, idx: seq<nat>): (items: seq<Item>)
    requires Positions(idx, |mib|) && forall j :: 0 <= j < |idx| ==> Under(column, mib[idx[j]].oid)
    ensures |items| == |idx|
    ensures forall j :: 0 <= j < |idx| ==>
              Under(column, mib[idx[j]].oid) &&
              items[j] == Item(Render(mib[idx[j]].oid[|column|..]), Clean(mib[idx[j]].value))
  {
    seq(|idx|, j requires 0 <= j < |idx| => ItemOf(column, mib[idx[j]]))
  }

  ghost predicate AreUnder(column: Oid, mib: seq<Entry>, idx: seq<nat>) {
    && Positions(idx, |mib|)
    && (forall j :: 0 <= j < |idx| ==> Under(column, mib[idx[j]].oid))
    && forall i: nat :: i in idx <==> i < |mib| && |column| < |mib[i].oid| && mib[i].oid[..|column|] == column
  }

  lemma {:induction false} ItemsAtPositions(column: Oid, mib: seq<Entry>) returns (idx: seq<nat>)
    ensures AreUnder(column, mib, idx) && ColumnItems(column, mib) == ItemsAt(column, mib, idx)
  {
    if mib == [] {
      idx := [];
    } else {
      var n := |mib| - 1;
      var before := ItemsAtPositions(column, mib[..n]);
      assert mib == mib[..n] + [mib[n]];
      ItemsSnoc(column, mib[..n], mib[n]);
      idx := Grown(before, n, Under(column, mib[n].oid));
      OneMoreEntry(column, mib[..n], mib[n], before);
    }
  }

  lemma ItemsSnoc(column: Oid, mib: seq<Entry>, e: Entry)
    ensures ColumnItems(column, mib + [e]) ==
            if Under(column, e.oid) then ColumnItems(column, mib) + [ItemOf(column, e)] else ColumnItems(column, mib)
  {
    ItemsAppend(column, mib, [e]);
    assert ColumnItems(column, [e][1..]) == [];
  }

  lemma OneMoreEntry(column: Oid, mib: seq<Entry>, e: Entry, before: seq<nat>)
    requires AreUnder(column, mib, before)
    ensures var kept := Under(column, e.oid);
            && AreUnder(column, mib + [e], Grown(before, |mib|, kept))
            && ItemsAt(column, mib + [e], Grown(before, |mib|, kept)) ==
               if kept then ItemsAt(column, mib, before) + [ItemOf(column, e)] else ItemsAt(column, mib, before)
  {
    GrownPositions(before, |mib|, Under(column, e.oid));
  }

  /** What a walk returns, by the positions of the entries under the column: all of them; or, if the request
      number `lost` is lost before their end, the first `lost`; or, if it is lost only after the agent has
      begun to repeat its last name, all of them with the last value replaced. */
  lemma WalkOverEntries(agent: Agent, column: Oid, n: nat) returns (idx: seq<nat>)
    requires Ordered(agent.mib) && column != [] && After(agent, column, n).Done?
    ensures AreUnder(column, agent.mib, idx)
    ensures var results, all := After(agent, column, n).results, ItemsAt(column, agent.mib, idx);
            if agent.lostAt.Some? && agent.lostAt.value <= |idx| then results == all[..agent.lostAt.value]
            else if agent.end.ErrorStatus? || idx == [] || idx[|idx| - 1] != |agent.mib| - 1 then results == all
            else |results| == |all| && results[..|all| - 1] == all[..|all| - 1] &&
                 results[|all| - 1] == Item(all[|all| - 1].key, Clean(agent.end.text))
  {
    WalkReturnsColumn(agent, column, n);
    idx := ItemsAtPositions(column, agent.mib);
    LastUnder(column, agent.mib, idx);
  }

  lemma LastUnder(column: Oid, mib: seq<Entry>, idx: seq<nat>)
    requires AreUnder(column, mib, idx)
    ensures mib != [] && Under(column, mib[|mib| - 1].oid) <==> idx != [] && idx[|idx| - 1] == |mib| - 1
  {
    if mib != [] && Under(column, mib[|mib| - 1].oid) {
      assert |mib| - 1 in idx;
    }
  }

  /** The loop, on an agent for which it ends. Reading the text of an accepted answer back, as the next
      request does, gives the name it came from. */
  method WalkColumn(agent: Agent, column: Oid) returns (results: seq<Item>)
    requires Ordered(agent.mib) && column != []
    requires agent.lostAt.Some? || agent.end.ErrorStatus? || !EndsInside(agent, column)
    ensures results == WalkResult(agent, column) && DistinctKeys(results)
  {
    WalkStopsIff(agent, column);
    ghost var limit: nat :| After(agent, column, limit).Done?;
    ghost var turns;
    results, turns := Walking(agent, column, Render(column), limit);
    WalkReturnsColumn(agent, column, turns);
  }

  /** A lost answer ends the loop. */
  lemma LossDecidesTurn(agent: Agent, column: Oid, n: nat, current: Oid, results: seq<Item>)
    requires After(agent, column, n) == Running(current, results) && NextCmd(agent, current, n).Failed?
    ensures After(agent, column, n + 1) == Done(results)
  {
  }

  /** An answer outside the column, by its text, ends the loop; any other is stored under the rest of its text. */
  lemma TextDecidesTurn(agent: Agent, column: Oid, columnOid: string, n: nat, current: Oid, results: seq<Item>,
                        answer: Answer, text: string)
    requires columnOid == Render(column) && After(agent, column, n) == Running(current, results)
    requires answer == NextCmd(agent, current, n) && answer.VarBind? && text == Render(answer.oid)
    ensures After(agent, column, n + 1) ==
            if StartsWith(text, columnOid + ".")
            then Running(answer.oid, SetItem(results, text[|columnOid| + 1..], Clean(answer.value)))
            else Done(results)
    ensures StartsWith(text, columnOid + ".") ==> answer.oid != []
  {
  }

  method Walking(agent: Agent, column: Oid, columnOid: string, ghost limit: nat)
    returns (results: seq<Item>, ghost turns: nat)
    requires columnOid == Render(column) && After(agent, column, limit).Done?
    ensures After(agent, column, turns) == Done(results)
  {
    var current := column;
    var asked := 0;
    results := [];
    while true
      invariant asked <= limit
      invariant After(agent, column, asked) == Running(current, results)
      decreases limit - asked
    {
      var answer := NextCmd(agent, current, asked);
      turns := asked + 1;
      if answer.Failed? {
        LossDecidesTurn(agent, column, asked, current, results);
        break;
      }
      var oidStr := Render(answer.oid);
      TextDecidesTurn(agent, column, columnOid, asked, current, results, answer, oidStr);
      if !StartsWith(oidStr, columnOid + ".") { break; }
      var index := oidStr[|columnOid| + 1..];
      results := SetItem(results, index, Clean(answer.value));
      current := Identify(oidStr, answer.oid);
      asked := asked + 1;
    }
  }
}
