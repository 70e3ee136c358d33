/** Super seeding (BEP 16): a piece nobody has goes to one peer at a time. */
module SuperSeed {
  import opened Prelude
  import opened Bits
  import opened Pieces

  /** What the extension reads of a peer. */
  datatype Peer = Peer(interested: bool, amChoked: bool, bitfield: seq<bool>)

  type Peers = map<SocketAddr, Peer>

  datatype Message = Request(index: nat) | Have(index: nat) | Other

  datatype PeerEvent = Disconnected | Received(msg: Message)

  datatype Seeding = Seeding(assignments: map<nat, SocketAddr>, unrevealed: set<nat>)

  predicate HasPiece(p: Peer, i: nat) {
    i < |p.bitfield| && p.bitfield[i]
  }

  predicate HeldBySome(peers: Peers, order: seq<SocketAddr>, i: nat) {
    exists k :: 0 <= k < |order| && order[k] in peers && HasPiece(peers[order[k]], i)
  }

  /** The first piece from `i` on that we have, nobody else has and that is not being revealed. */
  function FirstPiece(s: Seeding, peers: Peers, order: seq<SocketAddr>, ours: seq<bool>, i: nat): Option<nat>
    requires i <= |ours|
    decreases |ours| - i
  {
    if i == |ours| then None
    else if ours[i] && !HeldBySome(peers, order, i) && i !in s.assignments && i !in s.unrevealed then Some(i)
    else FirstPiece(s, peers, order, ours, i + 1)
  }

  predicate CanTake(s: Seeding, peers: Peers, a: SocketAddr) {
    a in peers && peers[a].interested && !peers[a].amChoked && a !in s.assignments.Values
  }

  /** The first peer in table order that may take a piece. */
  function FirstTarget(s: Seeding, peers: Peers, order: seq<SocketAddr>): Option<SocketAddr>
    decreases |order|
  {
    if order == [] then None
    else if CanTake(s, peers, order[0]) then Some(order[0])
    else FirstTarget(s, peers, order[1..])
  }

  function Assign(s: Seeding, peers: Peers, order: seq<SocketAddr>, ours: seq<bool>): Seeding {
    var piece, target := FirstPiece(s, peers, order, ours, 0), FirstTarget(s, peers, order);
    if piece.Some? && target.Some? then
      Seeding(s.assignments[piece.value := target.value], s.unrevealed + {piece.value})
    else s
  }

  /** The pieces assigned to a peer. */
  function AssignedTo(s: Seeding, a: SocketAddr): set<nat> {
    set i | i in s.assignments && s.assignments[i] == a
  }

  predicate Owns(s: Seeding, a: SocketAddr, i: nat) {
    i in s.assignments && s.assignments[i] == a
  }

  function OnPeerEvent(s: Seeding, a: SocketAddr, e: PeerEvent): Seeding {
    match e
    case Disconnected => Seeding(s.assignments - AssignedTo(s, a), s.unrevealed - AssignedTo(s, a))
    case Received(Have(i)) =>
      if Owns(s, a, i) then Seeding(s.assignments - {i}, s.unrevealed - {i}) else s
    case Received(_) => s
  }

  /** Is this event a request that the extension blocks? */
  predicate Blocks(s: Seeding, a: SocketAddr, e: PeerEvent) {
    e.Received? && e.msg.Request? && e.msg.index in s.unrevealed && !Owns(s, a, e.msg.index)
  }

  class SuperSeedExtension {
    var assignments: map<nat, SocketAddr>
    var unrevealed: set<nat>

    ghost function State(): Seeding
      reads this
    {
      Seeding(assignments, unrevealed)
    }

    constructor ()
      ensures State() == Seeding(map[], {})
    {
      assignments, unrevealed := map[], {};
    }

    /** `order` lists the peers as the hash table does, `ours` has one flag per piece. */
    method SelectPiece(peers: Peers, order: seq<SocketAddr>, ours: seq<bool>)
      requires forall a :: a in order ==> a in peers
      modifies this
      ensures State() == Assign(old(State()), peers, order, ours)
    {
      var availability := CountHolders(peers, order, |ours|);
      var i := 0;
      while i < |ours|
        invariant i <= |ours| && State() == old(State())
        invariant FirstPiece(State(), peers, order, ours, 0) == FirstPiece(State(), peers, order, ours, i)
      {
        if ours[i] && availability[i] == 0 && i !in assignments && i !in unrevealed {
          var target := None;
          var k := 0;
          assert order[0..] == order;
          while k < |order| && target.None?
            invariant k <= |order| && State() == old(State())
            invariant FirstTarget(State(), peers, order)
                   == if target.Some? then target else FirstTarget(State(), peers, order[k..])
          {
            assert order[k..][0] == order[k] && order[k..][1..] == order[k + 1..];
            var p := peers[order[k]];
            if p.interested && !p.amChoked && order[k] !in assignments.Values {
              target := Some(order[k]);
            }
            k := k + 1;
          }
          if target.Some? {
            assignments := assignments[i := target.value];
            unrevealed := unrevealed + {i};
          }
          return;
        }
        i := i + 1;
      }
    }

    /** Per piece, how many peers announced it; bits beyond the last piece are ignored. */
    method CountHolders(peers: Peers, order: seq<SocketAddr>, numPieces: nat) returns (availability: array<nat>)
      requires forall a :: a in order ==> a in peers
      ensures fresh(availability) && availability.Length == numPieces
      ensures forall i :: 0 <= i < numPieces ==> (availability[i] > 0 <==> HeldBySome(peers, order, i))
    {
      availability := new nat[numPieces](_ => 0);
      for k := 0 to |order|
        invariant forall i :: 0 <= i < numPieces ==> (availability[i] > 0 <==> HeldBySome(peers, order[..k], i))
      {
        ghost var before := availability[..];
        var bitfield := peers[order[k]].bitfield;
        var i := 0;
        while i < |bitfield| && i < numPieces
          invariant i <= |bitfield| && i <= numPieces
          invariant forall j :: 0 <= j < numPieces ==>
            availability[j] == before[j] + if j < i && bitfield[j] then 1 else 0
        {
          if bitfield[i] {
            availability[i] := availability[i] + 1;
          }
          i := i + 1;
        }
        forall j | 0 <= j < numPieces
          ensures HeldBySome(peers, order[..k + 1], j) <==> HeldBySome(peers, order[..k], j) || HasPiece(peers[order[k]], j)
        {
          OneMoreHolder(peers, order, k, j);
        }
      }
      assert order[..|order|] == order;
    }

    /** Returns whether the request is blocked and which piece is confirmed. */
    method HandlePeerEvent(addr: SocketAddr, event: PeerEvent) returns (blocked: bool, confirmed: Option<nat>)
      modifies this
      ensures State() == OnPeerEvent(old(State()), addr, event)
      ensures blocked == Blocks(old(State()), addr, event)
      ensures confirmed == if event.Received? && event.msg.Have? && Owns(old(State()), addr, event.msg.index)
                           then Some(event.msg.index) else None
    {
      blocked, confirmed := false, None;
      match event
      case Disconnected =>
        var orphaned := AssignedTo(Seeding(assignments, unrevealed), addr);
        var rest := orphaned;
        while rest != {}
          invariant rest <= orphaned
          invariant assignments == old(assignments) - (orphaned - rest)
          invariant unrevealed == old(unrevealed) - (orphaned - rest)
          decreases rest
        {
          var i :| i in rest;
          assert orphaned - (rest - {i}) == (orphaned - rest) + {i};
          unrevealed := unrevealed - {i};
          assignments := assignments - {i};
          rest := rest - {i};
        }
        assert orphaned - rest == orphaned;
      case Received(Request(i)) =>
        blocked := i in unrevealed && !(i in assignments && assignments[i] == addr);
      case Received(Have(i)) =>
        if i in assignments && assignments[i] == addr {
          unrevealed := unrevealed - {i};
          assignments := assignments - {i};
          confirmed := Some(i);
        }
      case Received(Other) =>
    }

    /** `mask_bitfield`: exactly the bits of unrevealed pieces are cleared. */
    method MaskBitfield(bytes: seq<bv8>) returns (masked: seq<bv8>)
      ensures |masked| == |bytes|
      ensures forall i: nat :: MessageBit(masked, i) <==> MessageBit(bytes, i) && i !in unrevealed
    {
      masked := bytes;
      var rest := unrevealed;
      while rest != {}
        invariant rest <= unrevealed && |masked| == |bytes|
        invariant forall i: nat :: MessageBit(masked, i) <==> MessageBit(bytes, i) && i !in unrevealed - rest
        decreases rest
      {
        var idx :| idx in rest;
        ghost var before := masked;
        if idx / 8 < |masked| {
          masked := masked[idx / 8 := ClearBit(masked[idx / 8], 7 - idx % 8)];
        }
        forall i: nat
          ensures MessageBit(masked, i) <==> MessageBit(before, i) && i != idx
        {
          MaskedBit(before, idx, i);
        }
        rest := rest - {idx};
      }
    }
  }

  lemma OneMoreHolder(peers: Peers, order: seq<SocketAddr>, k: nat, j: nat)
    requires k < |order| && order[k] in peers
    ensures HeldBySome(peers, order[..k + 1], j) <==> HeldBySome(peers, order[..k], j) || HasPiece(peers[order[k]], j)
  {
    var shorter, longer := order[..k], order[..k + 1];
    assert longer[k] == order[k];
    assert forall i :: 0 <= i < k ==> shorter[i] == longer[i];
  }

  lemma MaskedBit(bytes: seq<bv8>, idx: nat, i: nat)
    ensures var masked := if idx / 8 < |bytes| then bytes[idx / 8 := ClearBit(bytes[idx / 8], 7 - idx % 8)] else bytes;
            MessageBit(masked, i) <==> MessageBit(bytes, i) && i != idx
  {
    if idx / 8 < |bytes| && i / 8 == idx / 8 {
      BitUpdate(bytes[idx / 8], 7 - idx % 8, 7 - i % 8);
    }
  }

  // ---------------------------------------------------------------- runs

  /** `Tick` when we are seeding; an event of a peer together with whether its requests
      pass the choke and allowed-fast tests. */
  datatype Step =
    | Tick(peers: Peers, order: seq<SocketAddr>, ours: seq<bool>)
    | Event(addr: SocketAddr, event: PeerEvent, mayRequest: bool)

  /** The pieces of which a block went to a peer, in order. */
  datatype Run = Run(seeding: Seeding, served: seq<(nat, SocketAddr)>)

  /** The extension sees an event before the core serves it. */
  function Serves(s: Seeding, step: Step): seq<(nat, SocketAddr)> {
    if step.Event? && step.event.Received? && step.event.msg.Request? && step.mayRequest
       && !Blocks(s, step.addr, step.event)
    then [(step.event.msg.index, step.addr)] else []
  }

  function After(s: Seeding, step: Step): Seeding {
    match step
    case Tick(peers, order, ours) => Assign(s, peers, order, ours)
    case Event(addr, event, _) => OnPeerEvent(s, addr, event)
  }

  function RunFrom(s: Seeding, steps: seq<Step>): Run {
    if steps == [] then Run(s, [])
    else
      var front := RunFrom(s, steps[..|steps| - 1]);
      var last := steps[|steps| - 1];
      Run(After(front.seeding, last), front.served + Serves(front.seeding, last))
  }

  /** The hidden pieces are exactly the assigned ones, and no peer has two. */
  ghost predicate Consistent(s: Seeding) {
    && s.unrevealed == s.assignments.Keys
    && (forall i, j :: i in s.assignments && j in s.assignments && s.assignments[i] == s.assignments[j] ==> i == j)
  }

  lemma {:induction false} TargetIsFree(s: Seeding, peers: Peers, order: seq<SocketAddr>)
    ensures FirstTarget(s, peers, order).Some? ==> CanTake(s, peers, FirstTarget(s, peers, order).value)
  {
    if order != [] {
      TargetIsFree(s, peers, order[1..]);
    }
  }

  lemma {:induction false} PieceIsFree(s: Seeding, peers: Peers, order: seq<SocketAddr>, ours: seq<bool>, i: nat)
    requires i <= |ours|
    ensures var p := FirstPiece(s, peers, order, ours, i);
            p.Some? ==> p.value < |ours| && ours[p.value] && !HeldBySome(peers, order, p.value)
                        && p.value !in s.assignments && p.value !in s.unrevealed
    decreases |ours| - i
  {
    if i < |ours| {
      PieceIsFree(s, peers, order, ours, i + 1);
    }
  }

  lemma AfterConsistent(s: Seeding, step: Step)
    requires Consistent(s)
    ensures Consistent(After(s, step))
  {
    match step
    case Tick(peers, order, ours) =>
      TargetIsFree(s, peers, order);
      PieceIsFree(s, peers, order, ours, 0);
      hide FirstPiece, FirstTarget, HeldBySome;
    case Event(addr, event, _) =>
  }

  lemma {:induction false} RunConsistent(s: Seeding, steps: seq<Step>)
    requires Consistent(s)
    ensures Consistent(RunFrom(s, steps).seeding)
  {
    if steps != [] {
      hide After, Consistent;
      RunConsistent(s, steps[..|steps| - 1]);
      AfterConsistent(RunFrom(s, steps[..|steps| - 1]).seeding, steps[|steps| - 1]);
    }
  }

  /** A step that is neither the owner's Have for the piece nor its disconnect. */
  ghost predicate KeepsAssignment(step: Step, i: nat, owner: SocketAddr) {
    step.Event? && step.addr == owner ==> step.event != Disconnected && step.event != Received(Have(i))
  }

  lemma StepKeeps(s: Seeding, step: Step, i: nat, owner: SocketAddr)
    requires Consistent(s) && Owns(s, owner, i) && KeepsAssignment(step, i, owner)
    ensures Owns(After(s, step), owner, i)
    ensures forall a :: (i, a) in Serves(s, step) ==> a == owner
  {
    match step
    case Tick(peers, order, ours) =>
      PieceIsFree(s, peers, order, ours, 0);
      hide FirstPiece, FirstTarget, HeldBySome;
    case Event(addr, event, _) =>
  }

  /** From the moment a piece is assigned until its owner has it or leaves, the owner
      keeps it and no other peer gets any block of it. */
  lemma {:induction false} OnlyOwnerServed(s: Seeding, steps: seq<Step>, i: nat, owner: SocketAddr)
    requires Consistent(s) && Owns(s, owner, i)
    requires forall k :: 0 <= k < |steps| ==> KeepsAssignment(steps[k], i, owner)
    ensures Owns(RunFrom(s, steps).seeding, owner, i)
    ensures forall a :: (i, a) in RunFrom(s, steps).served ==> a == owner
  {
    if steps != [] {
      var front, last := steps[..|steps| - 1], steps[|steps| - 1];
      OnlyOwnerServed(s, front, i, owner);
      RunConsistent(s, front);
      hide After, Serves, Consistent, KeepsAssignment, Owns;
      assert KeepsAssignment(last, i, owner);
      StepKeeps(RunFrom(s, front).seeding, last, i, owner);
    }
  }

  /** An owner's Have or disconnect ends the assignment: the piece is open to everyone again. */
  lemma Released(s: Seeding, i: nat, owner: SocketAddr, other: SocketAddr)
    requires Consistent(s) && Owns(s, owner, i)
    ensures !Blocks(OnPeerEvent(s, owner, Received(Have(i))), other, Received(Request(i)))
    ensures !Blocks(OnPeerEvent(s, owner, Disconnected), other, Received(Request(i)))
    ensures other != owner ==> Blocks(s, other, Received(Request(i)))
  {}
}
