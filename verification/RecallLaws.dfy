/** Which atoms a retrieval returns and in what order (samia/core/semantic_recall.py), by the
    places of the hits and bridge candidates they come from. */
module RecallLaws {
  import opened Filters
  import opened Options
  import opened Recall

  /** `a` is the atom of a readable hit. */
  ghost predicate IsAtomOf(a: Atom, h: Hit, read: Reader) {
    h.node != "" && read(h.node) == Some(a.fields) && a.node == h.node && a.score == h.score
  }

  predicate Readable(h: Hit, read: Reader) {
    h.node != "" && read(h.node).Some?
  }

  /** The first readable hit of its node in the list, which is not taken. */
  predicate New(hits: seq<Hit>, i: int, taken: set<string>, read: Reader) {
    && 0 <= i < |hits| && Readable(hits[i], read) && hits[i].node !in taken
    && forall j :: 0 <= j < i ==> hits[j].node != hits[i].node
  }

  /** `at` lists, in order, exactly the places of the new nodes. */
  ghost predicate NewPlaces(at: seq<int>, hits: seq<Hit>, taken: set<string>, read: Reader) {
    Rising(at) && forall i :: i in at <==> New(hits, i, taken, read)
  }

  /** `at` lists, in order, exactly the places of the readable hits. */
  ghost predicate ReadablePlaces(at: seq<int>, hits: seq<Hit>, read: Reader) {
    Rising(at) && forall i :: i in at <==> 0 <= i < |hits| && Readable(hits[i], read)
  }

  /** The atoms are those of the hits at the leading places. */
  ghost predicate AtomsAt(atoms: seq<Atom>, hits: seq<Hit>, at: seq<int>, read: Reader) {
    |atoms| <= |at| && forall i :: 0 <= i < |atoms| ==> 0 <= at[i] < |hits| && IsAtomOf(atoms[i], hits[at[i]], read)
  }

  lemma AtomsShift(atoms: seq<Atom>, hits: seq<Hit>, at: seq<int>, read: Reader)
    requires hits != [] && AtomsAt(atoms, hits[1..], at, read)
    ensures AtomsAt(atoms, hits, Shifted(at), read)
    ensures forall a :: IsAtomOf(a, hits[0], read) ==> AtomsAt([a] + atoms, hits, [0] + Shifted(at), read)
  {
    forall i | 0 <= i < |atoms| ensures Shifted(at)[i] == at[i] + 1 && hits[1..][at[i]] == hits[at[i] + 1] {}
  }

  // ---- the lists of the specification ----------------------------------------------------------

  lemma AtomsHead(hits: seq<Hit>, read: Reader)
    requires hits != []
    ensures Readable(hits[0], read) ==>
              exists a :: IsAtomOf(a, hits[0], read) && Atoms(hits, read) == [a] + Atoms(hits[1..], read)
    ensures !Readable(hits[0], read) ==> Atoms(hits, read) == Atoms(hits[1..], read)
  {
    if Readable(hits[0], read) { assert IsAtomOf(AtomOf(hits[0], read).value, hits[0], read); }
  }

  lemma ReadableInTail(hits: seq<Hit>, at: seq<int>, tail: seq<int>, read: Reader)
    requires hits != [] && Rising(at) && ReadablePlaces(tail, hits[1..], read)
    requires forall i :: i in at <==> (i == 0 && Readable(hits[0], read)) || i - 1 in tail
    ensures ReadablePlaces(at, hits, read)
  {
    forall i ensures i in at <==> 0 <= i < |hits| && Readable(hits[i], read) {
      if i > 0 { assert 0 <= i - 1 < |hits[1..]| ==> hits[1..][i - 1] == hits[i]; }
    }
  }

  lemma {:induction false} AtomsExactly(hits: seq<Hit>, read: Reader) returns (at: seq<int>)
    ensures ReadablePlaces(at, hits, read)
    ensures |Atoms(hits, read)| == |at| && AtomsAt(Atoms(hits, read), hits, at, read)
  {
    if hits == [] {
      at := [];
    } else {
      var tail := AtomsExactly(hits[1..], read);
      at := PlacesWithHead(tail, Readable(hits[0], read));
      AtomsShift(Atoms(hits[1..], read), hits, tail, read);
      ReadableInTail(hits, at, tail, read);
      AtomsHead(hits, read);
    }
  }

  /** What is new in a list: its head, if new, and what the tail has new besides the head's node. */
  lemma NewInTail(hits: seq<Hit>, i: int, taken: set<string>, read: Reader)
    requires hits != []
    ensures var more := if Readable(hits[0], read) then taken + {hits[0].node} else taken;
      New(hits, i, taken, read) <==> (i == 0 && New(hits, 0, taken, read)) || New(hits[1..], i - 1, more, read)
  {
    var tail := hits[1..];
    if 0 < i < |hits| {
      assert tail[i - 1] == hits[i];
      if forall j :: 0 <= j < i - 1 ==> tail[j].node != tail[i - 1].node {
        forall j | 1 <= j < i ensures hits[j].node != hits[i].node { assert tail[j - 1] == hits[j]; }
      }
      if forall j :: 0 <= j < i ==> hits[j].node != hits[i].node {
        forall j | 0 <= j < i - 1 ensures tail[j].node != tail[i - 1].node { assert tail[j] == hits[j + 1]; }
      }
    }
  }

  lemma {:induction false} FreshExactly(hits: seq<Hit>, taken: set<string>, read: Reader) returns (at: seq<int>)
    ensures NewPlaces(at, hits, taken, read)
    ensures |Fresh(hits, taken, read)| == |at| && AtomsAt(Fresh(hits, taken, read), hits, at, read)
  {
    if hits == [] {
      at := [];
    } else {
      var more := if Readable(hits[0], read) then taken + {hits[0].node} else taken;
      var tail := FreshExactly(hits[1..], more, read);
      var head := New(hits, 0, taken, read);
      at := PlacesWithHead(tail, head);
      AtomsShift(Fresh(hits[1..], more, read), hits, tail, read);
      forall i ensures i in at <==> New(hits, i, taken, read) { NewInTail(hits, i, taken, read); }
      HeadOrNot(hits, taken, read, more);
    }
  }

  lemma HeadOrNot(hits: seq<Hit>, taken: set<string>, read: Reader, more: set<string>)
    requires hits != [] && more == if Readable(hits[0], read) then taken + {hits[0].node} else taken
    ensures New(hits, 0, taken, read) ==>
              exists a :: IsAtomOf(a, hits[0], read) && Fresh(hits, taken, read) == [a] + Fresh(hits[1..], more, read)
    ensures !New(hits, 0, taken, read) ==> Fresh(hits, taken, read) == Fresh(hits[1..], more, read)
  {
    if New(hits, 0, taken, read) {
      var a := AtomOf(hits[0], read).value;
      assert IsAtomOf(a, hits[0], read);
    } else if Readable(hits[0], read) {
      assert taken + {hits[0].node} == taken;
    }
  }

  // ---- the whole answer ----------------------------------------------------------------------

  function Least(a: int, b: int): int {
    if a <= b then a else b
  }

  /** The answer is, in this order: the first `cap` readable hits; from the candidates the first
      hits of new nodes while there is room; and from the hits the first of nodes still new. */
  ghost predicate IsAnswer(out: seq<Atom>, hits: seq<Hit>, candidates: seq<Hit>, k: int, cap: int, read: Reader,
                           lead: seq<int>, bridge: seq<int>, back: seq<int>) {
    var h := Least(cap, |lead|);
    var m := h + Least(|bridge|, k - h);
    && 0 <= h <= m && |out| == m + Least(|back|, k - m) && m <= |out|
    && ReadablePlaces(lead, hits, read) && AtomsAt(out[..h], hits, lead, read)
    && NewPlaces(bridge, candidates, Nodes(out[..h]), read) && AtomsAt(out[h..m], candidates, bridge, read)
    && NewPlaces(back, hits, Nodes(out[..m]), read) && AtomsAt(out[m..], hits, back, read)
  }

  lemma TakeAt(atoms: seq<Atom>, room: int, hits: seq<Hit>, at: seq<int>, read: Reader)
    requires room >= 0 && |atoms| == |at| && AtomsAt(atoms, hits, at, read)
    ensures |Take(atoms, room)| == Least(|at|, room) && AtomsAt(Take(atoms, room), hits, at, read)
  {
  }

  lemma FilledExactly(base: seq<Atom>, hits: seq<Hit>, limit: int, read: Reader) returns (at: seq<int>)
    requires |base| <= limit
    ensures NewPlaces(at, hits, Nodes(base), read)
    ensures var out := Filled(base, hits, limit, read);
      && |out| == |base| + Least(|at|, limit - |base|)
      && out[..|base|] == base && AtomsAt(out[|base|..], hits, at, read)
  {
    at := FreshExactly(hits, Nodes(base), read);
    var picks := Fresh(hits, Nodes(base), read);
    TakeAt(picks, limit - |base|, hits, at, read);
    assert Filled(base, hits, limit, read)[|base|..] == Take(picks, limit - |base|);
  }

  lemma ThreePhases(hits: seq<Hit>, candidates: seq<Hit>, k: int, cap: int, read: Reader)
    returns (out: seq<Atom>, lead: seq<int>, bridge: seq<int>, back: seq<int>)
    requires 0 <= cap <= k
    ensures out == Filled(Filled(Take(Atoms(hits, read), cap), candidates, k, read), hits, k, read)
    ensures IsAnswer(out, hits, candidates, k, cap, read, lead, bridge, back)
  {
    lead := AtomsExactly(hits, read);
    var head := Take(Atoms(hits, read), cap);
    TakeAt(Atoms(hits, read), cap, hits, lead, read);
    bridge := FilledExactly(head, candidates, k, read);
    var both := Filled(head, candidates, k, read);
    back := FilledExactly(both, hits, k, read);
    out := Filled(both, hits, k, read);
    assert out[..|head|] == out[..|both|][..|head|] == head;
    assert out[|head|..|both|] == out[..|both|][|head|..] == both[|head|..];
  }

  /** The reserve is the whole part of its share of the slots. */
  lemma ReserveExactly(k: int, fraction: real) returns (share: real)
    requires k >= 1 && 0.0 <= fraction <= 0.9
    ensures share == k as real * fraction
    ensures Reserve(k, fraction) as real <= share < Reserve(k, fraction) as real + 1.0
  {
    share := ShareBounds(k, fraction);
  }

  /** The bridge candidates that may take a reserved slot. */
  ghost predicate AreCandidates(candidates: seq<Hit>, reserve: int, bridges: Option<seq<Hit>>) {
    candidates == if reserve > 0 && bridges.Some? then bridges.value else []
  }

  lemma ThreePhasesRetrieve(hits: seq<Hit>, bridges: Option<seq<Hit>>, candidates: seq<Hit>, k: int, reserve: int, read: Reader)
    requires 0 <= reserve < k && AreCandidates(candidates, reserve, bridges)
    ensures Filled(Filled(Take(Atoms(hits, read), k - reserve), candidates, k, read), hits, k, read)
         == Retrieved(hits, bridges, k, reserve, read)
  {
  }

  /** The answer of every retrieval, by the places its atoms come from: with at least one slot
      the reserve is below `k`, whatever the fraction. */
  lemma RetrievedExactly(hits: seq<Hit>, bridges: Option<seq<Hit>>, candidates: seq<Hit>, k: int, reserve: int, read: Reader)
    returns (out: seq<Atom>, lead: seq<int>, bridge: seq<int>, back: seq<int>)
    requires 0 <= reserve < k && AreCandidates(candidates, reserve, bridges)
    ensures out == Retrieved(hits, bridges, k, reserve, read)
    ensures IsAnswer(out, hits, candidates, k, k - reserve, read, lead, bridge, back)
  {
    out, lead, bridge, back := ThreePhases(hits, candidates, k, k - reserve, read);
    ThreePhasesRetrieve(hits, bridges, candidates, k, reserve, read);
  }

  /** Without slots nothing is returned. */
  lemma NoSlots(hits: seq<Hit>, bridges: Option<seq<Hit>>, k: int, fraction: real, read: Reader)
    requires k <= 0 && 0.0 <= fraction <= 0.9
    ensures Retrieved(hits, bridges, k, Reserve(k, fraction), read) == []
  {
    ReserveLeavesRoom(k, fraction);
  }

  // ---- the reserve goes to the bridges -------------------------------------------------------

  /** The atom of some hit of the list. */
  ghost predicate Among(a: Atom, hits: seq<Hit>, read: Reader) {
    exists i :: 0 <= i < |hits| && IsAtomOf(a, hits[i], read)
  }

  ghost predicate AllIn(hits: seq<Hit>, atoms: seq<Atom>, read: Reader) {
    forall i :: 0 <= i < |hits| && Readable(hits[i], read) ==> hits[i].node in Nodes(atoms)
  }

  /** The first readable hit of the node of a readable hit. */
  lemma {:induction false} FirstOfNode(hits: seq<Hit>, i: nat, taken: set<string>, read: Reader) returns (j: nat)
    requires i < |hits| && Readable(hits[i], read) && hits[i].node !in taken
    ensures j < |hits| && hits[j].node == hits[i].node && New(hits, j, taken, read)
    decreases i
  {
    if k :| 0 <= k < i && hits[k].node == hits[i].node {
      j := FirstOfNode(hits, k, taken, read);
    } else {
      j := i;
    }
  }

  lemma PlacedNodes(atoms: seq<Atom>, hits: seq<Hit>, at: seq<int>, taken: set<string>, read: Reader, i: nat)
    requires NewPlaces(at, hits, taken, read) && AtomsAt(atoms, hits, at, read) && |atoms| == |at|
    requires i < |hits| && Readable(hits[i], read)
    ensures hits[i].node in taken || hits[i].node in Nodes(atoms)
  {
    if hits[i].node !in taken {
      var j := FirstOfNode(hits, i, taken, read);
      var place: int := j;
      assert New(hits, place, taken, read);
      assert place in at;
      var p :| 0 <= p < |at| && at[p] == place;
      NodeOf(atoms, p);
    }
  }

  /** With room for all bridge atoms, every readable candidate is among the leading hits or the
      bridge atoms. */
  lemma AllBridged(out: seq<Atom>, hits: seq<Hit>, candidates: seq<Hit>, k: int, cap: int, read: Reader,
                   lead: seq<int>, bridge: seq<int>, back: seq<int>, h: int, m: int)
    requires IsAnswer(out, hits, candidates, k, cap, read, lead, bridge, back)
    requires h == Least(cap, |lead|) && m == h + |bridge| && m <= k
    ensures 0 <= h <= m <= |out| && AllIn(candidates, out[..m], read)
  {
    forall i | 0 <= i < |candidates| && Readable(candidates[i], read) ensures candidates[i].node in Nodes(out[..m]) {
      PlacedNodes(out[h..m], candidates, bridge, Nodes(out[..h]), read, i);
      assert out[..m] == out[..h] + out[h..m];
      NodesOfSum(out[..h], out[h..m]);
    }
  }

  lemma AllInMore(hits: seq<Hit>, out: seq<Atom>, m: int, i: int, read: Reader)
    requires 0 <= m <= i <= |out| && AllIn(hits, out[..m], read)
    ensures AllIn(hits, out[..i], read)
  {
    assert out[..i] == out[..m] + out[m..i];
    NodesOfSum(out[..m], out[m..i]);
  }

  lemma BridgeAtoms(out: seq<Atom>, hits: seq<Hit>, candidates: seq<Hit>, k: int, cap: int, read: Reader,
                    lead: seq<int>, bridge: seq<int>, back: seq<int>, j: int)
    requires IsAnswer(out, hits, candidates, k, cap, read, lead, bridge, back)
    requires var h := Least(cap, |lead|); h <= j < h + Least(|bridge|, k - h)
    ensures j < |out| && Among(out[j], candidates, read)
  {
    var h := Least(cap, |lead|);
    var m := h + Least(|bridge|, k - h);
    assert out[h..m][j - h] == out[j];
    assert IsAtomOf(out[j], candidates[bridge[j - h]], read);
  }

  /** Behind the leading hits, whatever is not a bridge atom stands behind all bridge atoms taken
      from the candidates, and its being there means that every readable candidate is in. */
  lemma BridgesComeFirst(out: seq<Atom>, hits: seq<Hit>, candidates: seq<Hit>, k: int, cap: int, read: Reader,
                         lead: seq<int>, bridge: seq<int>, back: seq<int>, i: int)
    requires IsAnswer(out, hits, candidates, k, cap, read, lead, bridge, back)
    requires Least(cap, |lead|) <= i < |out| && !Among(out[i], candidates, read)
    ensures AllIn(candidates, out[..i], read)
  {
    var h := Least(cap, |lead|);
    var m := h + Least(|bridge|, k - h);
    forall j | h <= j < m ensures Among(out[j], candidates, read) {
      BridgeAtoms(out, hits, candidates, k, cap, read, lead, bridge, back, j);
    }
    assert m <= i && m == h + |bridge|;
    AllBridged(out, hits, candidates, k, cap, read, lead, bridge, back, h, m);
    AllInMore(candidates, out, m, i, read);
  }
}
