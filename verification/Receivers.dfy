/**
 Which peers are reachable on which transports (`ReceiverTable<N>` of
 `crates/relaystar-relay/src/receivers.rs`). The table means a map from addresses to
 non-empty sets of transports.
 */
module Receivers {
  import opened Wrappers
  import opened Proto
  import opened Bits
  import opened Sums

  type Peers = map<Addr, set<Transport>>

  /** The members of `keep`, in `Transport::ALL` order. */
  function InOrder(keep: set<Transport>): seq<Transport> {
    (if Lora in keep then [Lora] else []) + (if Mqtt in keep then [Mqtt] else [])
    + (if EspNow in keep then [EspNow] else [])
  }

  lemma InOrderMembers(keep: set<Transport>)
    ensures forall t :: t in InOrder(keep) <==> t in keep
    ensures |InOrder(keep)| <= 3
    ensures forall i, j :: 0 <= i < j < |InOrder(keep)| ==> InOrder(keep)[i] != InOrder(keep)[j]
  {
    forall t: Transport
      ensures t in InOrder(keep) <==> t in keep
    {
      match t
      case Lora =>
      case Mqtt =>
      case EspNow =>
    }
  }

  // ---- The bitmap ----

  function Index(t: Transport): nat {
    match t
    case Lora => 0
    case Mqtt => 1
    case EspNow => 2
  }

  function Bit(t: Transport): nat {
    match t
    case Lora => 1
    case Mqtt => 2
    case EspNow => 4
  }

  predicate Contains(bits: nat, t: Transport) {
    Test(bits, Index(t))
  }

  ghost function SetOf(bits: nat): set<Transport> {
    set t: Transport | Contains(bits, t)
  }

  lemma BitIsPow2(t: Transport)
    ensures Bit(t) == Pow2(Index(t))
  {
  }

  lemma {:induction false} InsertBit(bits: nat, t: Transport)
    requires bits < 8
    ensures 0 < Combine(Or, bits, Bit(t)) < 8
    ensures SetOf(Combine(Or, bits, Bit(t))) == SetOf(bits) + {t}
  {
    assert Pow2(3) == 8;
    CombineFits(Or, bits, Bit(t), 3);
    BitIsPow2(t);
    forall u: Transport
      ensures Contains(Combine(Or, bits, Bit(t)), u) <==> Contains(bits, u) || u == t
    {
      TestCombine(Or, bits, Bit(t), Index(u));
      TestPow2(Index(t), Index(u));
    }
    EmptyBits(Combine(Or, bits, Bit(t)));
  }

  /** `bits & !bit` in a byte. */
  lemma RemoveBit(bits: nat, t: Transport)
    requires bits < 8
    ensures Combine(And, bits, 255 - Bit(t)) < 8
    ensures SetOf(Combine(And, bits, 255 - Bit(t))) == SetOf(bits) - {t}
  {
    AndShrinks(bits, 255 - Bit(t));
    forall u: Transport
      ensures Contains(Combine(And, bits, 255 - Bit(t)), u) <==> Contains(bits, u) && u != t
    {
      TestCombine(And, bits, 255 - Bit(t), Index(u));
      ComplementBit(t, u);
    }
  }

  lemma ComplementBit(t: Transport, u: Transport)
    ensures Contains(255 - Bit(t), u) <==> u != t
  {
    assert Test(127, 0) && Test(127, 1) && Test(63, 0);
    assert 254 / 2 == 127 && 253 / 2 == 126 && 251 / 2 == 125;
    assert 127 / 2 == 63 && 126 / 2 == 63 && 125 / 2 == 62;
    assert Test(254, 1) == Test(127, 0) && Test(253, 1) == Test(126, 0) && Test(251, 1) == Test(125, 0);
    assert Test(254, 2) == Test(127, 1) && Test(253, 2) == Test(126, 1) && Test(251, 2) == Test(125, 1);
  }

  lemma {:induction false} AndShrinks(a: nat, b: nat)
    ensures Combine(And, a, b) <= a
    decreases a + b
  {
    if a + b > 0 { AndShrinks(a / 2, b / 2); }
  }

  lemma EmptyBits(bits: nat)
    requires bits < 8
    ensures bits == 0 <==> SetOf(bits) == {}
  {
    assert Test(bits, 1) == Test(bits / 2, 0);
    assert Test(bits, 2) == Test(bits / 2, 1) == Test(bits / 2 / 2, 0);
    if bits != 0 {
      assert Lora in SetOf(bits) || Mqtt in SetOf(bits) || EspNow in SetOf(bits);
    } else {
      assert forall t: Transport :: !Contains(0, t);
    }
  }

  // ---- The table ----

  datatype Receiver = Receiver(addr: Addr, bits: nat)

  /** Rows and peers correspond one to one; `rowOf` says which row is whose. */
  ghost predicate Agree(entries: seq<Receiver>, peers: Peers, rowOf: map<Addr, nat>) {
    && (forall i :: 0 <= i < |entries| ==> RowOk(entries[i], i, peers, rowOf))
    && (forall a :: a in rowOf ==> rowOf[a] < |entries| && entries[rowOf[a]].addr == a)
    && rowOf.Keys == peers.Keys
    && |peers| == |entries|
  }

  ghost predicate RowOk(row: Receiver, i: nat, peers: Peers, rowOf: map<Addr, nat>) {
    && 0 < row.bits < 8
    && row.addr in rowOf && rowOf[row.addr] == i
    && row.addr in peers && peers[row.addr] == SetOf(row.bits)
  }

  /** `add` on peers. */
  function AddPeer(capacity: nat, peers: Peers, a: Addr, t: Transport): (Peers, Result<bool, RelayError>) {
    if a in peers then (peers[a := peers[a] + {t}], Ok(t !in peers[a]))
    else if |peers| >= capacity then (peers, Err(ReceiverTableFull))
    else (peers[a := {t}], Ok(true))
  }

  /** `remove_transport` on peers: a peer without transports is dropped. */
  function RemovePeerTransport(peers: Peers, a: Addr, t: Transport): Peers {
    if a !in peers then peers
    else if peers[a] - {t} == {} then peers - {a}
    else peers[a := peers[a] - {t}]
  }

  /**
   Adding fails exactly for a stranger when the table is full, and then changes nothing;
   otherwise the peer has the transport besides those it had, all other peers keep theirs,
   and the answer tells whether it is new.
   */
  lemma AddMeans(capacity: nat, peers: Peers, a: Addr, t: Transport)
    ensures var (after, r) := AddPeer(capacity, peers, a, t);
      && (r.Err? <==> a !in peers && |peers| >= capacity)
      && (r.Err? ==> r == Err(ReceiverTableFull) && after == peers)
      && (r.Ok? ==>
           && (r.value <==> !(a in peers && t in peers[a]))
           && a in after && (forall u :: u in after[a] <==> u == t || (a in peers && u in peers[a]))
           && forall b :: b != a ==> (b in after <==> b in peers) && (b in peers ==> after[b] == peers[b]))
  {
  }

  /** Removing takes away one transport of one peer, and the peer with its last; all others stay. */
  lemma RemoveMeans(peers: Peers, a: Addr, t: Transport)
    requires forall b :: b in peers ==> peers[b] != {}
    ensures var after := RemovePeerTransport(peers, a, t);
      && (a in after <==> a in peers && exists u :: u in peers[a] && u != t)
      && (a in after ==> forall u :: u in after[a] <==> u in peers[a] && u != t)
      && (forall b :: b != a ==> (b in after <==> b in peers) && (b in peers ==> after[b] == peers[b]))
      && (forall b :: b in after ==> after[b] != {})
  {
    if a in peers && peers[a] - {t} == {} {
      assert forall u :: u in peers[a] ==> u !in peers[a] - {t};
    } else if a in peers {
      var u :| u in peers[a] - {t};
    }
  }

  lemma RowChanged(entries: seq<Receiver>, peers: Peers, rowOf: map<Addr, nat>, i: nat, bits: nat)
    requires Agree(entries, peers, rowOf) && i < |entries| && 0 < bits < 8
    ensures Agree(entries[i := entries[i].(bits := bits)], peers[entries[i].addr := SetOf(bits)], rowOf)
  {
    hide SetOf;
    assert RowOk(entries[i], i, peers, rowOf);
    MapSizes(peers, entries[i].addr, SetOf(bits));
    var entries', peers' := entries[i := entries[i].(bits := bits)], peers[entries[i].addr := SetOf(bits)];
    forall j | 0 <= j < |entries|
      ensures RowOk(entries'[j], j, peers', rowOf)
    {
      assert RowOk(entries[j], j, peers, rowOf);
    }
  }

  lemma RowAdded(entries: seq<Receiver>, peers: Peers, rowOf: map<Addr, nat>, row: Receiver)
    requires Agree(entries, peers, rowOf) && row.addr !in peers && 0 < row.bits < 8
    ensures Agree(entries + [row], peers[row.addr := SetOf(row.bits)], rowOf[row.addr := |entries|])
  {
    hide SetOf, RowOk;
    MapSizes(peers, row.addr, SetOf(row.bits));
    var entries', peers', rowOf' := entries + [row], peers[row.addr := SetOf(row.bits)], rowOf[row.addr := |entries|];
    forall j | 0 <= j < |entries'|
      ensures RowOk(entries'[j], j, peers', rowOf')
    {
      if j < |entries| {
        InstantiateRow(entries, peers, rowOf, j);
        RowSurvivesAdding(entries[j], j, peers, rowOf, row, |entries|);
      } else {
        NewRowOk(row, j, peers, rowOf);
      }
    }
  }

  lemma RowSurvivesAdding(kept: Receiver, j: nat, peers: Peers, rowOf: map<Addr, nat>, row: Receiver, n: nat)
    requires RowOk(kept, j, peers, rowOf) && row.addr !in peers
    ensures RowOk(kept, j, peers[row.addr := SetOf(row.bits)], rowOf[row.addr := n])
  {
    hide SetOf;
  }

  lemma NewRowOk(row: Receiver, j: nat, peers: Peers, rowOf: map<Addr, nat>)
    requires 0 < row.bits < 8
    ensures RowOk(row, j, peers[row.addr := SetOf(row.bits)], rowOf[row.addr := j])
  {
    hide SetOf;
  }

  /** `swap_remove`: the last row takes the place of row `i`. */
  function SwapRemove(entries: seq<Receiver>, i: nat): seq<Receiver>
    requires i < |entries|
  {
    entries[i := entries[|entries| - 1]][..|entries| - 1]
  }

  lemma RowRemoved(entries: seq<Receiver>, peers: Peers, rowOf: map<Addr, nat>, i: nat)
    requires Agree(entries, peers, rowOf) && i < |entries|
    ensures var a, last := entries[i].addr, entries[|entries| - 1].addr;
      Agree(SwapRemove(entries, i), peers - {a}, rowOf[last := i] - {a})
  {
    hide SetOf, RowOk;
    var a, last := entries[i].addr, entries[|entries| - 1].addr;
    InstantiateRow(entries, peers, rowOf, i);
    InstantiateRow(entries, peers, rowOf, |entries| - 1);
    MapSizes(peers, a, {});
    var entries', peers', rowOf' := SwapRemove(entries, i), peers - {a}, rowOf[last := i] - {a};
    assert rowOf'.Keys == peers'.Keys;
    forall j | 0 <= j < |entries'|
      ensures RowOk(entries'[j], j, peers', rowOf')
    {
      InstantiateRow(entries, peers, rowOf, j);
      RowSurvives(entries, peers, rowOf, i, j);
    }
    forall b | b in rowOf'
      ensures rowOf'[b] < |entries'| && entries'[rowOf'[b]].addr == b
    {
      assert b != last ==> rowOf'[b] == rowOf[b];
    }
  }

  lemma InstantiateRow(entries: seq<Receiver>, peers: Peers, rowOf: map<Addr, nat>, i: nat)
    requires Agree(entries, peers, rowOf) && i < |entries|
    ensures RowOk(entries[i], i, peers, rowOf)
    ensures 0 < entries[i].bits < 8 && entries[i].addr in rowOf && rowOf[entries[i].addr] == i
  {
    assert RowOk(entries[i], i, peers, rowOf);
  }

  lemma RowSurvives(entries: seq<Receiver>, peers: Peers, rowOf: map<Addr, nat>, i: nat, j: nat)
    requires i < |entries| && j < |entries| - 1
    requires RowOk(entries[i], i, peers, rowOf) && RowOk(entries[j], j, peers, rowOf)
    requires RowOk(entries[|entries| - 1], |entries| - 1, peers, rowOf)
    ensures var a, last := entries[i].addr, entries[|entries| - 1].addr;
      RowOk(SwapRemove(entries, i)[j], j, peers - {a}, rowOf[last := i] - {a})
  {
    hide SetOf;
  }

  class ReceiverTable {
    const capacity: nat
    var entries: seq<Receiver>
    ghost var peers: Peers
    ghost var rowOf: map<Addr, nat>

    ghost predicate Valid()
      reads this
    {
      |entries| <= capacity && Agree(entries, peers, rowOf)
    }

    constructor (capacity: nat)
      ensures Valid() && this.capacity == capacity && peers == map[]
    {
      this.capacity := capacity;
      entries := [];
      peers := map[];
      rowOf := map[];
    }

    /** The row for `addr`. */
    method Lookup(addr: Addr) returns (row: Option<nat>)
      requires Valid()
      ensures row.None? <==> addr !in peers
      ensures row.Some? ==> row.value < |entries| && entries[row.value].addr == addr
      ensures row.Some? ==> peers[addr] == SetOf(entries[row.value].bits)
    {
      hide SetOf;
      for i := 0 to |entries|
        invariant forall j :: 0 <= j < i ==> entries[j].addr != addr
      {
        if entries[i].addr == addr {
          assert RowOk(entries[i], i, peers, rowOf);
          return Some(i);
        }
      }
      return None;
    }

    /** Makes `addr` reachable on `t`; answers whether that is new. */
    method Add(addr: Addr, t: Transport) returns (r: Result<bool, RelayError>)
      requires Valid()
      modifies this
      ensures Valid() && (peers, r) == AddPeer(capacity, old(peers), addr, t)
    {
      hide SetOf, Agree;
      var row := Lookup(addr);
      if row.Some? {
        var i := row.value;
        var bits := entries[i].bits;
        InstantiateRow(entries, peers, rowOf, i);
        InsertBit(bits, t);
        IsMember(bits, t);
        RowChanged(entries, peers, rowOf, i, Combine(Or, bits, Bit(t)));
        entries := entries[i := entries[i].(bits := Combine(Or, bits, Bit(t)))];
        peers := peers[addr := peers[addr] + {t}];
        return Ok(!Contains(bits, t));
      }
      RowCount(entries, peers, rowOf);
      if |entries| == capacity {
        return Err(ReceiverTableFull);
      }
      var newRow := Receiver(addr, Combine(Or, 0, Bit(t)));
      SingleBit(t);
      RowAdded(entries, peers, rowOf, newRow);
      rowOf := rowOf[addr := |entries|];
      entries := entries + [newRow];
      peers := peers[addr := {t}];
      return Ok(true);
    }

    /** Removes `t` from the row for `addr`, and the row once it is empty. */
    method RemoveTransport(addr: Addr, t: Transport) returns (changed: bool)
      requires Valid()
      modifies this
      ensures Valid() && peers == RemovePeerTransport(old(peers), addr, t)
      ensures changed <==> addr in old(peers) && t in old(peers)[addr]
    {
      hide SetOf, Agree;
      var row := Lookup(addr);
      if row.None? {
        return false;
      }
      var i := row.value;
      var bits := entries[i].bits;
      InstantiateRow(entries, peers, rowOf, i);
      RemoveBit(bits, t);
      IsMember(bits, t);
      changed := Contains(bits, t);
      var rest := Combine(And, bits, 255 - Bit(t));
      EmptyBits(rest);
      if rest == 0 {
        var _ := Remove(addr);
      } else {
        RowChanged(entries, peers, rowOf, i, rest);
        entries := entries[i := entries[i].(bits := rest)];
        peers := peers[addr := peers[addr] - {t}];
      }
    }

    /** Removes every trace of `addr`. */
    method Remove(addr: Addr) returns (existed: bool)
      requires Valid()
      modifies this
      ensures Valid() && peers == old(peers) - {addr}
      ensures existed <==> addr in old(peers)
    {
      hide SetOf, Agree;
      var row := Lookup(addr);
      if row.None? {
        assert peers == peers - {addr};
        return false;
      }
      var i := row.value;
      RowRemoved(entries, peers, rowOf, i);
      rowOf := rowOf[entries[|entries| - 1].addr := i] - {addr};
      entries := SwapRemove(entries, i);
      peers := peers - {addr};
      return true;
    }
  }

  lemma RowCount(entries: seq<Receiver>, peers: Peers, rowOf: map<Addr, nat>)
    requires Agree(entries, peers, rowOf)
    ensures |peers| == |entries|
  {
  }

  lemma IsMember(bits: nat, t: Transport)
    ensures Contains(bits, t) <==> t in SetOf(bits)
  {
  }

  lemma SingleBit(t: Transport)
    ensures 0 < Combine(Or, 0, Bit(t)) < 8 && SetOf(Combine(Or, 0, Bit(t))) == {t}
  {
    InsertBit(0, t);
    EmptyBits(0);
    CombineZero(Or, Bit(t));
  }
}
