/**
 The fixed slot array of `Reassembler<SLOTS, PER_SLOT>`, updated in place, and the proof
 that it behaves like the map of open groups in `Reassembly`.
 */
module SlotArray {
  import opened Wrappers
  import opened Proto
  import opened Bits
  import opened Sums
  import opened Reassembly

  /** The contents of a slot at one moment. */
  datatype Cell = Cell(
    inUse: bool, key: Key, received: nat, seenMask: nat, buckets: seq<seq<u8>>, template: Option<Message>)
  {
    /** As after `new` or `reset`: nothing of an earlier group is left behind. */
    ghost predicate Free() {
      && !inUse && key == Key(0, 0) && received == 0 && seenMask == 0 && template.None?
      && forall s :: 0 <= s < |buckets| ==> buckets[s] == []
    }

    /** Holds exactly the slices of `a`: mask, counter, buckets and header agree. */
    ghost predicate Tracks(k: Key, a: Assembly) {
      && inUse && key == k && template == Some(a.template)
      && received == |a.slices| == PopCount(seenMask)
      && seenMask < Pow2(64)
      && (forall s: nat :: Test(seenMask, s) <==> s in a.slices)
      && (forall s :: 0 <= s < |buckets| ==> buckets[s] == if s in a.slices then a.slices[s] else [])
    }
  }

  /** None of the first `n` cells is in use for a group with this id. */
  ghost predicate NoneBefore(cells: seq<Cell>, group: u32, n: nat)
    requires n <= |cells|
  {
    forall j :: 0 <= j < n ==> !(cells[j].inUse && cells[j].key.group == group)
  }

  /** Cell `i` is the first one that is. */
  ghost predicate FirstOfGroup(cells: seq<Cell>, group: u32, i: nat) {
    i < |cells| && cells[i].inUse && cells[i].key.group == group && NoneBefore(cells, group, i)
  }

  /** Of the groups, the one in the first such cell is gone, and nothing else. */
  ghost predicate DropsFirst(cells: seq<Cell>, before: Groups, after: Groups, group: u32) {
    exists i: nat :: FirstOfGroup(cells, group, i) && cells[i].key in before && after == before - {cells[i].key}
  }

  /** Cell `i` is the first free one. */
  ghost predicate FirstFree(cells: seq<Cell>, i: nat) {
    && i < |cells| && !cells[i].inUse
    && forall j :: 0 <= j < i ==> cells[j].inUse
  }

  /** Cell `i` is free, or it is the home of one open group and holds just that group. */
  ghost predicate CellOk(cells: seq<Cell>, groups: Groups, home: map<Key, nat>, i: nat)
    requires i < |cells|
  {
    if cells[i].inUse then
      && cells[i].key in home && home[cells[i].key] == i
      && cells[i].key in groups && cells[i].Tracks(cells[i].key, groups[cells[i].key])
    else
      cells[i].Free()
  }

  ghost predicate CellsOk(cells: seq<Cell>, groups: Groups, home: map<Key, nat>) {
    forall i :: 0 <= i < |cells| ==> CellOk(cells, groups, home, i)
  }

  ghost predicate HomesOk(cells: seq<Cell>, home: map<Key, nat>) {
    forall k :: k in home ==> home[k] < |cells| && cells[home[k]].inUse && cells[home[k]].key == k
  }

  /** Cells in use and open groups correspond one to one. */
  ghost predicate Agree(cells: seq<Cell>, groups: Groups, home: map<Key, nat>) {
    && CellsOk(cells, groups, home)
    && HomesOk(cells, home)
    && home.Keys == groups.Keys
    && |groups| == Used(cells, |cells|)
  }

  function Used(cells: seq<Cell>, n: nat): nat
    requires n <= |cells|
  {
    if n == 0 then 0 else Used(cells, n - 1) + (if cells[n - 1].inUse then 1 else 0)
  }

  class Slot {
    var inUse: bool
    var groupId: u32
    var total: u16
    var received: nat
    var seenMask: nat
    const fragments: array<seq<u8>>
    var template: Option<Message>

    ghost function View(): Cell
      reads this, fragments
    {
      Cell(inUse, Key(groupId, total), received, seenMask, fragments[..], template)
    }

    constructor (perSlot: nat)
      ensures View().Free() && fresh(fragments) && fragments.Length == perSlot
    {
      inUse := false;
      groupId := 0;
      total := 0;
      received := 0;
      seenMask := 0;
      fragments := new seq<u8>[perSlot](_ => []);
      template := None;
    }

    method Reset()
      modifies this, fragments
      ensures View().Free()
    {
      inUse := false;
      groupId := 0;
      total := 0;
      received := 0;
      seenMask := 0;
      for s := 0 to fragments.Length
        invariant forall i :: 0 <= i < s ==> fragments[i] == []
        modifies fragments
      {
        fragments[s] := [];
      }
      template := None;
    }

    /** Takes the slot for a new group; the payload of the claiming message is not yet stored. */
    method Claim(group: u32, total: u16, msg: Message)
      requires View().Free()
      modifies this
      ensures View().Tracks(Key(group, total), Assembly(Header(msg), map[]))
    {
      hide Test, PopCount, Pow2;
      inUse := true;
      groupId := group;
      this.total := total;
      received := 0;
      seenMask := 0;
      template := Some(Message(msg.id, msg.ttl, msg.origin, msg.from, msg.to, msg.kind, [], None));
      EmptyMask();
    }

    /** Copies one slice into its bucket and marks it as seen. */
    method Store(s: nat, payload: seq<u8>, ghost k: Key, ghost a: Assembly)
      requires View().Tracks(k, a) && s < fragments.Length && s < 64 && s !in a.slices
      modifies this, fragments
      ensures View().Tracks(k, a.(slices := a.slices[s := payload]))
    {
      hide Test, PopCount, Pow2, Combine;
      fragments[s] := payload;
      MaskStep(seenMask, s);
      MapSizes(a.slices, s, payload);
      seenMask := Combine(Or, seenMask, Pow2(s));
      received := received + 1;
    }
  }

  lemma EmptyMask()
    ensures PopCount(0) == 0 < Pow2(64) && forall s: nat :: !Test(0, s)
  {
    forall s: nat
      ensures !Test(0, s)
    {
      TestZero(s);
    }
  }

  lemma {:induction false} MaskStep(mask: nat, s: nat)
    requires mask < Pow2(64) && s < 64 && !Test(mask, s)
    ensures var m := Combine(Or, mask, Pow2(s));
      m < Pow2(64) && PopCount(m) == PopCount(mask) + 1 && forall i: nat :: Test(m, i) <==> i == s || Test(mask, i)
  {
    PopCountSet(mask, s);
    Pow2Monotone(s + 1, 64);
    CombineFits(Or, mask, Pow2(s), 64);
    forall i: nat
      ensures Test(Combine(Or, mask, Pow2(s)), i) <==> i == s || Test(mask, i)
    {
      TestCombine(Or, mask, Pow2(s), i);
      TestPow2(s, i);
    }
  }

  // ---- How changing one cell changes the groups ----

  lemma {:induction false} NoneUsed(cells: seq<Cell>, n: nat)
    requires n <= |cells| && forall i :: 0 <= i < n ==> !cells[i].inUse
    ensures Used(cells, n) == 0
  {
    if n > 0 { NoneUsed(cells, n - 1); }
  }

  lemma AllFree(cells: seq<Cell>)
    requires forall i :: 0 <= i < |cells| ==> cells[i].Free()
    ensures Agree(cells, map[], map[])
  {
    NoneUsed(cells, |cells|);
  }

  lemma {:induction false} AllUsed(cells: seq<Cell>, n: nat)
    requires n <= |cells| && forall i :: 0 <= i < n ==> cells[i].inUse
    ensures Used(cells, n) == n
  {
    if n > 0 { AllUsed(cells, n - 1); }
  }

  /** Replacing one cell moves the count with its flag; a free cell leaves room below the length. */
  lemma {:induction false} UsedAfter(cells: seq<Cell>, i: nat, c: Cell, n: nat)
    requires n <= |cells| && i < |cells|
    ensures Used(cells[i := c], n) == Used(cells, n)
      + (if i < n && c.inUse && !cells[i].inUse then 1 else if i < n && !c.inUse && cells[i].inUse then -1 else 0)
    ensures Used(cells, n) <= n
    ensures i < n && !cells[i].inUse ==> Used(cells, n) < n
  {
    if n > 0 { UsedAfter(cells, i, c, n - 1); }
  }

  lemma CellClaimed(cells: seq<Cell>, groups: Groups, home: map<Key, nat>, i: nat, c: Cell, a: Assembly)
    requires Agree(cells, groups, home) && i < |cells| && !cells[i].inUse
    requires c.key !in groups && c.Tracks(c.key, a)
    ensures Agree(cells[i := c], groups[c.key := a], home[c.key := i])
    ensures |groups| < |cells|
  {
    hide Cell.Tracks, Cell.Free, Used, CellsOk, HomesOk;
    UsedAfter(cells, i, c, |cells|);
    MapSizes(groups, c.key, a);
    Tracked(c, c.key, a);
    ClaimedCells(cells, groups, home, i, c, a);
    ClaimedHomes(cells, home, i, c);
  }

  lemma ClaimedCells(cells: seq<Cell>, groups: Groups, home: map<Key, nat>, i: nat, c: Cell, a: Assembly)
    requires CellsOk(cells, groups, home) && i < |cells| && c.Tracks(c.key, a)
    requires c.key !in groups
    ensures CellsOk(cells[i := c], groups[c.key := a], home[c.key := i])
  {
    hide Cell.Tracks, Cell.Free;
    Tracked(c, c.key, a);
    var cells', groups', home' := cells[i := c], groups[c.key := a], home[c.key := i];
    forall j | 0 <= j < |cells|
      ensures CellOk(cells', groups', home', j)
    {
      assert CellOk(cells, groups, home, j);
    }
  }

  lemma ClaimedHomes(cells: seq<Cell>, home: map<Key, nat>, i: nat, c: Cell)
    requires HomesOk(cells, home) && i < |cells| && !cells[i].inUse && c.inUse
    ensures HomesOk(cells[i := c], home[c.key := i])
  {
  }

  lemma CellChanged(cells: seq<Cell>, groups: Groups, home: map<Key, nat>, i: nat, c: Cell, a: Assembly)
    requires Agree(cells, groups, home) && i < |cells| && cells[i].inUse
    requires c.Tracks(cells[i].key, a)
    ensures Agree(cells[i := c], groups[cells[i].key := a], home)
  {
    hide Cell.Tracks, Cell.Free, Used, CellsOk;
    InstantiateCell(cells, groups, home, i);
    UsedAfter(cells, i, c, |cells|);
    MapSizes(groups, cells[i].key, a);
    Tracked(c, cells[i].key, a);
    ChangedCells(cells, groups, home, i, c, a);
    assert groups[cells[i].key := a].Keys == groups.Keys;
  }

  lemma ChangedCells(cells: seq<Cell>, groups: Groups, home: map<Key, nat>, i: nat, c: Cell, a: Assembly)
    requires CellsOk(cells, groups, home) && i < |cells| && cells[i].inUse && c.Tracks(cells[i].key, a)
    ensures CellsOk(cells[i := c], groups[cells[i].key := a], home)
  {
    hide Cell.Tracks, Cell.Free;
    Tracked(c, cells[i].key, a);
    assert CellOk(cells, groups, home, i);
    var cells', groups' := cells[i := c], groups[cells[i].key := a];
    forall j | 0 <= j < |cells|
      ensures CellOk(cells', groups', home, j)
    {
      assert CellOk(cells, groups, home, j);
    }
  }

  lemma CellFreed(cells: seq<Cell>, groups: Groups, home: map<Key, nat>, i: nat, c: Cell)
    requires Agree(cells, groups, home) && i < |cells| && cells[i].inUse && c.Free()
    ensures Agree(cells[i := c], groups - {cells[i].key}, home - {cells[i].key})
  {
    hide Cell.Tracks, Cell.Free, Used, CellsOk;
    assert CellOk(cells, groups, home, i) by { InstantiateCell(cells, groups, home, i); }
    UsedAfter(cells, i, c, |cells|);
    MapSizes(groups, cells[i].key, groups[cells[i].key]);
    FreedCells(cells, groups, home, i, c);
    FreeUnused(c);
  }

  lemma InstantiateCell(cells: seq<Cell>, groups: Groups, home: map<Key, nat>, i: nat)
    requires CellsOk(cells, groups, home) && i < |cells|
    ensures CellOk(cells, groups, home, i)
  {
  }

  lemma FreedCells(cells: seq<Cell>, groups: Groups, home: map<Key, nat>, i: nat, c: Cell)
    requires CellsOk(cells, groups, home) && i < |cells| && cells[i].inUse && c.Free()
    ensures CellsOk(cells[i := c], groups - {cells[i].key}, home - {cells[i].key})
  {
    hide Cell.Tracks, Cell.Free;
    FreeUnused(c);
    assert CellOk(cells, groups, home, i);
    var cells', groups', home' := cells[i := c], groups - {cells[i].key}, home - {cells[i].key};
    forall j | 0 <= j < |cells|
      ensures CellOk(cells', groups', home', j)
    {
      assert CellOk(cells, groups, home, j);
    }
  }

  lemma Tracked(c: Cell, k: Key, a: Assembly)
    requires c.Tracks(k, a)
    ensures c.inUse && c.key == k
  {
  }

  lemma {:induction false} TrackedFacts(c: Cell, k: Key, a: Assembly, s: nat)
    requires c.Tracks(k, a)
    ensures c.key == k && c.received == |a.slices| && (Test(c.seenMask, s) <==> s in a.slices)
  {
  }

  lemma FreeUnused(c: Cell)
    requires c.Free()
    ensures !c.inUse
  {
  }

  class Reassembler {
    const slots: array<Slot>
    const perSlot: nat
    ghost var groups: Groups
    ghost var home: map<Key, nat>
    ghost const repr: set<object>

    ghost function Dimensions(): Dims {
      Dims(slots.Length, perSlot)
    }

    /** The slots are separate objects that belong to this reassembler alone. */
    ghost predicate Shape()
      reads this, repr, slots
    {
      && this in repr && slots !in repr
      && (forall i :: 0 <= i < slots.Length ==>
           && slots[i] in repr && slots[i].fragments in repr
           && slots[i].fragments.Length == perSlot
           && slots[i].fragments as object != slots)
      && (forall i, j :: 0 <= i < j < slots.Length ==>
           slots[i] != slots[j] && slots[i].fragments != slots[j].fragments)
    }

    ghost function Cells(): (cells: seq<Cell>)
      requires Shape()
      reads this, repr, slots
      ensures |cells| == slots.Length && forall i :: 0 <= i < |cells| ==> cells[i] == slots[i].View()
    {
      seq(slots.Length, (i: nat) requires Shape() && i < slots.Length reads this, repr, slots => slots[i].View())
    }

    /** The slots hold exactly the open groups. */
    ghost predicate Consistent()
      reads this, repr, slots
    {
      Shape() && Agree(Cells(), groups, home)
    }

    ghost predicate Valid()
      reads this, repr, slots
    {
      Consistent() && GroupsOk(Dimensions(), groups)
    }

    constructor (slotCount: nat, perSlot: nat)
      ensures Valid() && fresh(repr) && fresh(slots)
      ensures Dimensions() == Dims(slotCount, perSlot) && groups == map[]
    {
      hide Cell.Free, Agree;
      this.perSlot := perSlot;
      var filler := new Slot(perSlot);
      var cells := new Slot[slotCount](_ => filler);
      ghost var owned: set<object> := {};
      for i := 0 to slotCount
        invariant fresh(cells) && cells.Length == slotCount && cells !in owned
        invariant forall o :: o in owned ==> fresh(o)
        invariant forall j :: 0 <= j < i ==>
            && cells[j] in owned && cells[j].fragments in owned && fresh(cells[j]) && fresh(cells[j].fragments)
            && cells[j].View().Free() && cells[j].fragments.Length == perSlot && cells[j].fragments as object != cells
        invariant forall j, l :: 0 <= j < l < i ==>
            cells[j] != cells[l] && cells[j].fragments != cells[l].fragments
      {
        var slot := new Slot(perSlot);
        cells[i] := slot;
        owned := owned + {slot, slot.fragments};
      }
      slots := cells;
      repr := owned + {this};
      groups := map[];
      home := map[];
      new;
      AllFree(Cells());
    }

    lemma SlotTracks(i: nat)
      requires Consistent() && i < slots.Length && slots[i].inUse
      ensures slots[i].View().key in groups
      ensures slots[i].View().Tracks(slots[i].View().key, groups[slots[i].View().key])
    {
      InstantiateUsed(Cells(), groups, home, i);
      assert Cells()[i] == slots[i].View();
    }

    /**
     What holds of every slot between calls: counter, mask, buckets and header agree, an
     open group is neither empty nor complete, and nothing is left behind in a free slot.
     */
    lemma SlotInvariant(i: nat)
      requires Valid() && i < slots.Length
      ensures var s := slots[i];
        if s.inUse then
          && 1 <= s.received < s.total <= 64 && s.total <= perSlot
          && s.received == PopCount(s.seenMask)
          && (forall b: nat :: Test(s.seenMask, b) ==> b < s.total)
          && (forall b :: 0 <= b < perSlot && !Test(s.seenMask, b) ==> s.fragments[b] == [])
          && s.template.Some?
          && forall j :: 0 <= j < slots.Length && j != i && slots[j].inUse ==>
               !(slots[j].groupId == s.groupId && slots[j].total == s.total)
        else
          s.View().Free()
    {
      if slots[i].inUse {
        SlotTracks(i);
        forall j | 0 <= j < slots.Length && j != i && slots[j].inUse
          ensures !(slots[j].groupId == slots[i].groupId && slots[j].total == slots[i].total)
        {
          assert CellOk(Cells(), groups, home, i) && CellOk(Cells(), groups, home, j);
        }
      } else {
        InstantiateFree(Cells(), groups, home, i);
      }
    }

    /** Number of slots in use. */
    method InFlight() returns (count: nat)
      requires Consistent()
      ensures count == |groups|
    {
      count := 0;
      for i := 0 to slots.Length
        invariant count == Used(Cells(), i)
      {
        if slots[i].inUse {
          count := count + 1;
        }
      }
    }

    /** The slot already assembling group `k`, if there is one. */
    method Find(k: Key) returns (idx: Option<nat>)
      requires Consistent()
      ensures idx.Some? <==> k in groups
      ensures idx.Some? ==> idx.value < slots.Length && slots[idx.value].inUse && slots[idx.value].View().key == k
    {
      for i := 0 to slots.Length
        invariant forall j :: 0 <= j < i ==> !(Cells()[j].inUse && Cells()[j].key == k)
      {
        if slots[i].inUse && slots[i].groupId == k.group && slots[i].total == k.total {
          assert CellOk(Cells(), groups, home, i);
          return Some(i);
        }
        assert Cells()[i] == slots[i].View();
      }
      idx := None;
    }

    method ClaimAt(i: nat, f: Fragment, msg: Message)
      requires Consistent() && KeyOf(f) !in groups
      requires i < slots.Length && !slots[i].inUse
      modifies repr
      ensures Consistent() && groups == old(groups)[KeyOf(f) := Assembly(Header(msg), map[])]
      ensures slots[i].inUse && slots[i].View().key == KeyOf(f) && |old(groups)| < slots.Length
    {
      hide Cell.Tracks, Cell.Free, Agree;
      ghost var a := Assembly(Header(msg), map[]);
      InstantiateFree(Cells(), groups, home, i);
      slots[i].Claim(f.groupId, f.total, msg);
      Tracked(slots[i].View(), KeyOf(f), a);
      CellClaimed(old(Cells()), groups, home, i, slots[i].View(), a);
      groups := groups[KeyOf(f) := a];
      home := home[KeyOf(f) := i];
      assert Cells() == old(Cells())[i := slots[i].View()];
    }

    method StoreAt(i: nat, s: nat, payload: seq<u8>)
      requires Consistent() && i < slots.Length && slots[i].inUse
      requires s < perSlot && s < 64 && slots[i].View().key in groups
      requires s !in groups[slots[i].View().key].slices
      modifies repr
      ensures Consistent() && slots[i].inUse && slots[i].View().key == old(slots[i].View().key)
      ensures var k := old(slots[i].View().key);
        groups == old(groups)[k := old(groups)[k].(slices := old(groups)[k].slices[s := payload])]
    {
      hide Cell.Tracks, Cell.Free, Agree;
      ghost var k := slots[i].View().key;
      ghost var a := groups[k].(slices := groups[k].slices[s := payload]);
      SlotTracks(i);
      slots[i].Store(s, payload, k, groups[k]);
      Tracked(slots[i].View(), k, a);
      CellChanged(old(Cells()), groups, home, i, slots[i].View(), a);
      groups := groups[k := a];
      assert Cells() == old(Cells())[i := slots[i].View()];
    }

    method ResetAt(i: nat)
      requires Consistent() && i < slots.Length && slots[i].inUse
      modifies repr
      ensures Consistent() && groups == old(groups) - {old(slots[i].View().key)}
    {
      hide Cell.Tracks, Cell.Free, Agree;
      ghost var k := slots[i].View().key;
      slots[i].Reset();
      CellFreed(old(Cells()), groups, home, i, slots[i].View());
      groups := groups - {k};
      home := home - {k};
      assert Cells() == old(Cells())[i := slots[i].View()];
    }

    /** The slot assembling the group of `msg`, claiming the first free one for a new group. */
    method FindOrClaim(f: Fragment, msg: Message) returns (idx: Option<nat>)
      requires Consistent() && msg.frag == Some(f)
      modifies repr
      ensures Consistent()
      ensures idx.None? <==> KeyOf(f) !in old(groups) && |old(groups)| >= slots.Length
      ensures idx.None? ==> groups == old(groups)
      ensures idx.Some? ==>
                && idx.value < slots.Length && slots[idx.value].inUse && slots[idx.value].View().key == KeyOf(f)
                && groups == old(groups)[KeyOf(f) := Joining(old(groups), msg)]
                && (KeyOf(f) !in old(groups) ==> FirstFree(old(Cells()), idx.value))
    {
      hide Agree;
      idx := Find(KeyOf(f));
      if idx.Some? {
        assert groups == groups[KeyOf(f) := Joining(groups, msg)];
        return;
      }
      for i := 0 to slots.Length
        invariant Consistent() && groups == old(groups) && Cells() == old(Cells())
        invariant forall j :: 0 <= j < i ==> Cells()[j].inUse
      {
        if !slots[i].inUse {
          ClaimAt(i, f, msg);
          return Some(i);
        }
      }
      FullMeansSlots(Cells(), groups, home);
      return None;
    }

    /** Takes one message: see `Reassembly.Ingest` for what it means. */
    method Ingest(msg: Message) returns (r: Outcome)
      requires Valid()
      modifies repr
      ensures Valid() && (groups, r) == Reassembly.Ingest(Dimensions(), old(groups), msg)
    {
      hide Agree;
      IngestKeepsGroups(Dimensions(), groups, msg);
      if msg.frag.None? {
        return Passthrough(msg);
      }
      var f := msg.frag.value;
      if f.total == 0 || f.seqNo >= f.total || f.total > perSlot || f.total > 64 {
        return Dropped(BadHeader);
      }
      var idx := FindOrClaim(f, msg);
      if idx.None? {
        return Dropped(NoSlot);
      }
      r := Absorb(idx.value, f, msg, old(groups));
    }

    /** Takes one slice into its slot, and delivers the message once it is whole. */
    method Absorb(i: nat, f: Fragment, msg: Message, ghost before: Groups) returns (r: Outcome)
      requires Consistent() && msg.frag == Some(f) && GoodHeader(Dimensions(), f)
      requires KeyOf(f) in before || |before| < slots.Length
      requires i < slots.Length && slots[i].inUse && slots[i].View().key == KeyOf(f)
      requires groups == before[KeyOf(f) := Joining(before, msg)]
      modifies repr
      ensures Consistent() && (groups, r) == Reassembly.Ingest(Dimensions(), before, msg)
    {
      hide Agree, Cell.Tracks, Concat;
      var slot := slots[i];
      ghost var k, a := KeyOf(f), Joining(before, msg);
      SlotTracks(i);
      TrackedFacts(slot.View(), k, a, f.seqNo);
      if Test(slot.seenMask, f.seqNo) {
        assert groups == before;
        return Dropped(DuplicateSlice);
      }
      if |msg.payload| > MAX_PAYLOAD {
        ResetAt(i);
        assert groups == before - {k};
        return Dropped(RejectReason.PayloadTooLarge);
      }
      StoreAt(i, f.seqNo, msg.payload);
      ghost var slices := a.slices[f.seqNo := msg.payload];
      assert groups == before[k := Assembly(a.template, slices)];
      SlotTracks(i);
      TrackedFacts(slot.View(), k, groups[k], f.seqNo);
      if slot.received < slot.total {
        return Buffered;
      }
      var whole := Deliver(i, slices);
      if whole.None? {
        assert groups == before - {k};
        return Dropped(RejectReason.PayloadTooLarge);
      }
      assert groups == before - {k};
      return Complete(whole.value);
    }

    /** Joins the slices of a full slot and frees it; nothing when they exceed one message. */
    method Deliver(i: nat, ghost slices: map<nat, seq<u8>>) returns (whole: Option<Message>)
      requires Consistent() && i < slots.Length && slots[i].inUse && slots[i].total <= perSlot
      requires slots[i].View().key in groups && groups[slots[i].View().key].slices == slices
      modifies repr
      ensures Consistent()
      ensures var k, n := old(slots[i].View().key), old(slots[i].total);
        && groups == old(groups) - {k}
        && whole == if |Concat(slices, n)| > MAX_PAYLOAD then None
                    else Some(old(groups)[k].template.(payload := Concat(slices, n), frag := None))
    {
      hide Agree;
      var slot := slots[i];
      SlotTracks(i);
      var assembled: seq<u8> := [];
      for s := 0 to slot.total
        invariant assembled == Concat(slices, s) && |assembled| <= MAX_PAYLOAD
      {
        assert slot.View().buckets[s] == slot.fragments[s];
        if |assembled| + |slot.fragments[s]| > MAX_PAYLOAD {
          ConcatGrows(slices, s + 1, slot.total);
          ResetAt(i);
          return None;
        }
        assembled := assembled + slot.fragments[s];
      }
      var template := slot.template.value;
      ResetAt(i);
      return Some(template.(payload := assembled, frag := None));
    }

    /** Drops the first group with this group id, whatever its total; answers whether there was one. */
    method Evict(groupId: u32) returns (found: bool)
      requires Valid()
      modifies repr
      ensures if found then DropsFirst(old(Cells()), old(groups), groups, groupId) else groups == old(groups)
      ensures found <==> exists k :: k in old(groups) && k.group == groupId
      ensures Valid()
    {
      hide Agree, NoneBefore;
      assert NoneBefore(Cells(), groupId, 0) by {
        NoneAtAll(Cells(), groupId);
      }
      for i := 0 to slots.Length
        invariant Valid() && groups == old(groups) && Cells() == old(Cells())
        invariant NoneBefore(Cells(), groupId, i)
      {
        if slots[i].inUse && slots[i].groupId == groupId {
          EvictAt(i, groupId);
          return true;
        }
        OneMoreChecked(Cells(), groupId, i);
      }
      NoSuchGroup(Cells(), groups, home, groupId);
      return false;
    }

    method EvictAt(i: nat, groupId: u32)
      requires Valid() && FirstOfGroup(Cells(), groupId, i)
      modifies repr
      ensures Valid() && old(Cells())[i].key in old(groups)
      ensures groups == old(groups) - {old(Cells())[i].key}
    {
      hide Agree, NoneBefore;
      SlotTracks(i);
      ResetAt(i);
      DroppingKeeps(Dimensions(), old(groups), old(Cells())[i].key);
    }
  }

  lemma NoneAtAll(cells: seq<Cell>, group: u32)
    ensures NoneBefore(cells, group, 0)
  {
  }

  lemma OneMoreChecked(cells: seq<Cell>, group: u32, n: nat)
    requires n < |cells| && NoneBefore(cells, group, n) && !(cells[n].inUse && cells[n].key.group == group)
    ensures NoneBefore(cells, group, n + 1)
  {
  }

  lemma NoSuchGroup(cells: seq<Cell>, groups: Groups, home: map<Key, nat>, group: u32)
    requires Agree(cells, groups, home) && NoneBefore(cells, group, |cells|)
    ensures forall k :: k in groups ==> k.group != group
  {
    hide Agree;
    GroupsHaveHomes(cells, groups, home);
  }

  lemma GroupsHaveHomes(cells: seq<Cell>, groups: Groups, home: map<Key, nat>)
    requires Agree(cells, groups, home)
    ensures forall k :: k in groups ==> exists i :: 0 <= i < |cells| && cells[i].inUse && cells[i].key == k
  {
    forall k | k in groups
      ensures exists i :: 0 <= i < |cells| && cells[i].inUse && cells[i].key == k
    {
      assert cells[home[k]].key == k;
    }
  }

  lemma {:induction false} ConcatGrows(slices: map<nat, seq<u8>>, m: nat, n: nat)
    requires m <= n
    ensures |Concat(slices, m)| <= |Concat(slices, n)|
  {
    if m < n { ConcatGrows(slices, m, n - 1); }
  }

  lemma InstantiateFree(cells: seq<Cell>, groups: Groups, home: map<Key, nat>, i: nat)
    requires Agree(cells, groups, home) && i < |cells| && !cells[i].inUse
    ensures cells[i].Free()
  {
    assert CellOk(cells, groups, home, i);
  }

  lemma InstantiateUsed(cells: seq<Cell>, groups: Groups, home: map<Key, nat>, i: nat)
    requires Agree(cells, groups, home) && i < |cells| && cells[i].inUse
    ensures cells[i].key in groups && cells[i].Tracks(cells[i].key, groups[cells[i].key])
  {
    assert CellOk(cells, groups, home, i);
  }

  lemma FullMeansSlots(cells: seq<Cell>, groups: Groups, home: map<Key, nat>)
    requires Agree(cells, groups, home) && forall j :: 0 <= j < |cells| ==> cells[j].inUse
    ensures |groups| == |cells|
  {
    AllUsed(cells, |cells|);
  }
}
