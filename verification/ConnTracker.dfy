/** The list of live connections (src/server_conn_tracker.c): an intrusive linked list under a lock. */
module ConnTracker {
  import opened Bytes

  /** One entry as an outsider sees it. Entries are told apart by identity, not by socket number. */
  datatype Item = Item(id: nat, closing: bool)

  datatype State = State(initialized: bool, shuttingDown: bool, count: nat, items: seq<Item>)

  const UNUSED: State := State(false, false, 0, [])
  const FRESH: State := State(true, false, 0, [])

  function Ids(items: seq<Item>): set<nat> {
    set i <- items :: i.id
  }

  /** No entry is listed twice. */
  predicate Distinct(items: seq<Item>) {
    forall j, k | 0 <= j < k < |items| :: items[j].id != items[k].id
  }

  function Without(items: seq<Item>, id: nat): seq<Item> {
    if items == [] then [] else if items[0].id == id then items[1..] else [items[0]] + Without(items[1..], id)
  }

  function AllClosing(items: seq<Item>): (r: seq<Item>)
    ensures |r| == |items|
    ensures forall k | 0 <= k < |r| :: r[k] == Item(items[k].id, true)
  {
    if items == [] then [] else [Item(items[0].id, true)] + AllClosing(items[1..])
  }

  function AfterBegin(s: State, id: nat): State {
    s.(count := s.count + 1, items := [Item(id, false)] + s.items)
  }

  function AfterEnd(s: State, id: nat): State {
    s.(count := if s.count > 0 then s.count - 1 else 0, items := Without(s.items, id))
  }

  /** The broadcast in `end` and in `shutdown_all`: only once there is nothing left to wait for. */
  predicate WakesWaiter(s: State) {
    s.shuttingDown && s.count == 0
  }

  function AfterShutdownAll(s: State): State {
    if s.initialized then s.(shuttingDown := true, items := AllClosing(s.items)) else s
  }

  predicate Sound(s: State) {
    s.count == |s.items| && Distinct(s.items)
  }

  lemma {:induction false} IdsCons(first: Item, rest: seq<Item>)
    ensures Ids([first] + rest) == {first.id} + Ids(rest)
  {
    forall i <- rest ensures i in [first] + rest {
    }
    assert first in [first] + rest;
  }

  lemma {:induction false} DistinctCons(first: Item, rest: seq<Item>)
    ensures Distinct([first] + rest) <==> first.id !in Ids(rest) && Distinct(rest)
  {
    var all := [first] + rest;
    assert forall k | 0 <= k < |rest| :: all[k + 1] == rest[k] && rest[k].id in Ids(rest);
    if Distinct(all) {
      forall i <- rest ensures i.id != first.id {
        var k :| 0 <= k < |rest| && rest[k] == i;
        assert all[0] == first && all[k + 1] == i;
      }
      forall j, k | 0 <= j < k < |rest| ensures rest[j].id != rest[k].id {
        assert all[j + 1].id != all[k + 1].id;
      }
    }
  }

  lemma {:induction false} WithoutOne(items: seq<Item>, id: nat)
    requires Distinct(items)
    ensures Ids(Without(items, id)) == Ids(items) - {id} && Distinct(Without(items, id))
    ensures |Without(items, id)| == if id in Ids(items) then |items| - 1 else |items|
    ensures (forall i <- items :: i.closing) ==> forall i <- Without(items, id) :: i.closing
  {
    hide Ids, Distinct;
    if items == [] {
      assert Ids(items) == {} by {
        NoIds();
      }
    } else {
      var first, rest := items[0], items[1..];
      assert items == [first] + rest;
      IdsCons(first, rest);
      DistinctCons(first, rest);
      WithoutOne(rest, id);
      if first.id != id {
        IdsCons(first, Without(rest, id));
        DistinctCons(first, Without(rest, id));
      }
    }
  }

  lemma {:induction false} NoIds()
    ensures Ids([]) == {} && Distinct([])
  {
  }

  class Entry {
    ghost const id: nat
    const conn: nat
    var closing: bool
    var next: Entry?

    constructor (conn: nat, ghost id: nat)
      ensures this.conn == conn && this.id == id && !closing && next == null
    {
      this.conn, this.id := conn, id;
      closing, next := false, null;
    }
  }

  /** The k-th entry, null after the last one. */
  ghost function EntryAt(list: seq<Entry>, k: nat): Entry? {
    if k < |list| then list[k] else null
  }

  class Tracker {
    var initialized: bool
    var shuttingDown: bool
    var activeCount: nat
    var head: Entry?
    /** The listed entries, first to last. */
    ghost var list: seq<Entry>

    /** What an outsider sees of them. */
    ghost var items: seq<Item>

    ghost predicate Valid()
      reads this, list
    {
      && activeCount == |list| == |items|
      && head == EntryAt(list, 0)
      && (forall k {:trigger list[k].next} | 0 <= k < |list| :: list[k].next == EntryAt(list, k + 1))
      && (forall k {:trigger items[k]} {:trigger list[k].id} | 0 <= k < |list| ::
            items[k] == Item(list[k].id, list[k].closing))
      && Distinct(items)
    }

    ghost function View(): State
      reads this
    {
      State(initialized, shuttingDown, activeCount, items)
    }

    constructor ()
      ensures Valid() && View() == UNUSED
    {
      initialized, shuttingDown, activeCount, head := false, false, 0, null;
      list, items := [], [];
    }

    method Init(primitivesOk: bool) returns (ok: bool)
      requires Valid()
      modifies this
      ensures Valid()
      ensures ok <==> old(initialized) || primitivesOk
      ensures View() == if ok && !old(initialized) then FRESH else old(View())
    {
      if initialized {
        return true;
      }
      if !primitivesOk {
        return false;
      }
      initialized, shuttingDown, activeCount, head := true, false, 0, null;
      list, items := [], [];
      ok := true;
    }

    /** `server_conn_tracker_begin`: a new entry at the head, unless shutdown has begun. */
    method Begin(conn: nat, heap: Heap, ghost id: nat) returns (entry: Entry?)
      requires Valid() && id !in Ids(items)
      modifies this, heap
      ensures Valid()
      ensures entry == null ==> View() == old(View()) && (shuttingDown || heap.failed)
      ensures entry != null ==> fresh(entry) && entry.id == id && entry.conn == conn && entry in list
      ensures entry != null ==> !old(shuttingDown) && View() == AfterBegin(old(View()), id)
    {
      hide Ids, Distinct;
      var granted := heap.Request();
      if !granted {
        return null;
      }
      var e := new Entry(conn, id);
      if shuttingDown {
        return null;
      }
      e.next := head;
      head := e;
      activeCount := activeCount + 1;
      ghost var entries, shown := list, items;
      list, items := [e] + entries, [Item(id, false)] + shown;
      DistinctCons(Item(id, false), shown);
      forall k | 0 <= k < |list|
        ensures list[k].next == EntryAt(list, k + 1) && items[k] == Item(list[k].id, list[k].closing)
      {
        if k > 0 {
          assert list[k] == entries[k - 1] && items[k] == shown[k - 1];
        }
      }
      return e;
    }

    /** The search of `end`: the entry before the one to unlink, null when that is the first. */
    method Find(entry: Entry) returns (last: Entry?, ghost n: nat)
      requires Valid() && entry in list
      ensures n < |list| && list[n] == entry
      ensures last == if n == 0 then null else list[n - 1]
    {
      ghost var at: nat :| at < |list| && list[at] == entry;
      last := null;
      var current := head;
      n := 0;
      while current != entry
        invariant n <= at && current == list[n]
        invariant last == if n == 0 then null else list[n - 1]
        decreases at - n
      {
        last, current := current, current.next;
        n := n + 1;
      }
    }

    lemma {:induction false} Apart(n: nat)
      requires Valid() && n < |list|
      ensures forall k | 0 <= k < |list| && k != n :: list[k] != list[n]
    {
      forall k | 0 <= k < |list| && k != n ensures list[k] != list[n] {
        assert items[k].id != items[n].id;
      }
    }

    /** `server_conn_tracker_end`: unlinks the entry; true when it woke the waiter. */
    method End(entry: Entry) returns (broadcast: bool)
      requires Valid() && entry in list
      modifies this, list
      ensures Valid() && entry !in list
      ensures View() == AfterEnd(old(View()), entry.id)
      ensures broadcast == WakesWaiter(View())
    {
      hide Ids, Distinct, Without;
      ghost var entries, shown := list, items;
      // `link` of the source is the address of `head` when `last` is null, of `last.next` otherwise.
      var last, n := Find(entry);
      WithoutAt(shown, n);
      Apart(n);
      if last == null {
        head := entry.next;
      } else {
        assert last == entries[n - 1];
        Apart(n - 1);
        last.next := entry.next;
      }
      if activeCount > 0 {
        activeCount := activeCount - 1;
      }
      list, items := entries[..n] + entries[n + 1..], shown[..n] + shown[n + 1..];
      forall k | 0 <= k < |list|
        ensures list[k] != entry && items[k] == Item(list[k].id, list[k].closing)
        ensures list[k].next == EntryAt(list, k + 1)
      {
        if k < n {
          assert list[k] == entries[k] && items[k] == shown[k];
        } else {
          assert list[k] == entries[k + 1] && items[k] == shown[k + 1];
        }
      }
      broadcast := shuttingDown && activeCount == 0;
    }

    /** `server_conn_tracker_shutdown_all`: refuses new entries and aborts the listed ones. */
    method ShutdownAll() returns (broadcast: bool)
      requires Valid()
      modifies this`shuttingDown, this`items, list`closing
      ensures Valid()
      ensures View() == AfterShutdownAll(old(View()))
      ensures broadcast == (old(initialized) && WakesWaiter(View()))
    {
      if !initialized {
        return false;
      }
      shuttingDown := true;
      var entry := head;
      ghost var k: nat := 0;
      while entry != null
        invariant k <= |list| && entry == EntryAt(list, k)
        invariant forall j | 0 <= j < k :: list[j].closing
        modifies list`closing
        decreases |list| - k
      {
        if !entry.closing {
          entry.closing := true;
        }
        entry := entry.next;
        k := k + 1;
      }
      items := AllClosing(items);
      broadcast := activeCount == 0;
    }

    /** `server_conn_tracker_cleanup`. */
    method Cleanup()
      requires Valid()
      modifies this
      ensures Valid()
      ensures View() == if old(initialized) then UNUSED else old(View())
    {
      if !initialized {
        return;
      }
      initialized, shuttingDown, activeCount, head := false, false, 0, null;
      list, items := [], [];
    }
  }

  lemma {:induction false} WithoutAt(items: seq<Item>, n: nat)
    requires n < |items| && Distinct(items)
    ensures Without(items, items[n].id) == items[..n] + items[n + 1..]
    ensures Distinct(items[..n] + items[n + 1..])
  {
    if n > 0 {
      WithoutAt(items[1..], n - 1);
      assert items[1..][n - 1] == items[n];
      assert [items[0]] + (items[1..][..n - 1] + items[1..][n..]) == items[..n] + items[n + 1..];
    }
  }
}
