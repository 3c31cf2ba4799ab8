/** `atom_retrieve` (samia/core/semantic_recall.py): top-k retrieval of semantic nodes with
    slots reserved for entity-bridge candidates. */
module Recall {
  import opened Options
  import opened Scalars

  datatype Hit = Hit(node: string, score: real)
  datatype Fields = Fields(title: string, body: string, validFrom: string, source: string)
  datatype Atom = Atom(node: string, fields: Fields, score: real)

  /** What reading a node gives: its fields when it is a readable semantic node. */
  type Reader = string -> Option<Fields>

  function AtomOf(h: Hit, read: Reader): Option<Atom> {
    if h.node == "" then None
    else match read(h.node) { case None => None case Some(f) => Some(Atom(h.node, f, h.score)) }
  }

  function Share(k: int, fraction: real): real {
    k as real * fraction
  }

  function Reserve(k: int, fraction: real): int {
    Truncated(Share(k, fraction))
  }

  function VectorCap(k: int, reserve: int): nat {
    if k > reserve then k - reserve else 0
  }

  lemma ShareBounds(k: int, fraction: real) returns (share: real)
    requires 0.0 <= fraction <= 0.9
    ensures share == Share(k, fraction)
    ensures k >= 1 ==> 0.0 <= share < k as real
    ensures k <= 0 ==> k as real <= share <= 0.0
  {
    var x := k as real;
    share := x * fraction;
    var rest := 1.0 - fraction;
    assert share + x * rest == x;
    if x > 0.0 {
      assert share >= 0.0 && x * rest > 0.0;
    } else if x < 0.0 {
      assert share <= 0.0 && x * rest <= 0.0;
    }
  }

  lemma TruncatedBounds(x: real, k: int)
    ensures k >= 1 && 0.0 <= x < k as real ==> 0 <= Truncated(x) < k
    ensures k <= 0 && k as real <= x <= 0.0 ==> k <= Truncated(x) <= 0
  {
  }

  lemma CapBounds(k: int, reserve: int)
    ensures k >= 1 && 0 <= reserve < k ==> 1 <= VectorCap(k, reserve) <= k
    ensures k <= reserve ==> VectorCap(k, reserve) == 0
  {
  }

  /** However the reserve is set, the vector phase keeps at least one slot. */
  lemma ReserveLeavesRoom(k: int, fraction: real)
    requires 0.0 <= fraction <= 0.9
    ensures k >= 1 ==> 0 <= Reserve(k, fraction) < k && 1 <= VectorCap(k, Reserve(k, fraction)) <= k
    ensures k <= 0 ==> k <= Reserve(k, fraction) <= 0 && VectorCap(k, Reserve(k, fraction)) == 0
  {
    var share := ShareBounds(k, fraction);
    TruncatedBounds(share, k);
    CapBounds(k, Truncated(share));
  }

  // ---- the specification ----------------------------------------------------------

  function Take(atoms: seq<Atom>, room: int): seq<Atom> {
    if room <= 0 then [] else if room <= |atoms| then atoms[..room] else atoms
  }

  /** The atoms of a hit list, in order. */
  function Atoms(hits: seq<Hit>, read: Reader): seq<Atom> {
    if hits == [] then []
    else
      match AtomOf(hits[0], read)
      case None => Atoms(hits[1..], read)
      case Some(a) => [a] + Atoms(hits[1..], read)
  }

  /** The atoms of a hit list whose node is neither taken nor seen earlier in the list. */
  function Fresh(hits: seq<Hit>, taken: set<string>, read: Reader): seq<Atom> {
    if hits == [] then []
    else
      match AtomOf(hits[0], read)
      case None => Fresh(hits[1..], taken, read)
      case Some(a) =>
        if a.node in taken then Fresh(hits[1..], taken, read)
        else [a] + Fresh(hits[1..], taken + {a.node}, read)
  }

  function Nodes(atoms: seq<Atom>): set<string> {
    set i | 0 <= i < |atoms| :: atoms[i].node
  }

  /** The bridge candidates that take part: none when nothing is reserved or the lookup failed. */
  function Candidates(reserve: int, bridges: Option<seq<Hit>>): seq<Hit> {
    if reserve > 0 && bridges.Some? then bridges.value else []
  }

  /** A base followed by the unseen atoms of a list, up to `limit` in all. */
  function Filled(base: seq<Atom>, hits: seq<Hit>, limit: int, read: Reader): seq<Atom> {
    base + Take(Fresh(hits, Nodes(base), read), limit - |base|)
  }

  /** The three phases: the leading vector atoms, then bridge atoms, then more vector atoms. */
  function Retrieved(hits: seq<Hit>, bridges: Option<seq<Hit>>, k: int, reserve: int, read: Reader): seq<Atom> {
    var head := Take(Atoms(hits, read), VectorCap(k, reserve));
    Filled(Filled(head, Candidates(reserve, bridges), k, read), hits, k, read)
  }

  // ---- the loops ------------------------------------------------------------------

  /** The atoms once a hit is looked at. */
  function WithHit(h: Hit, atoms: seq<Atom>, read: Reader): seq<Atom> {
    match AtomOf(h, read)
    case Some(a) => if h.node !in Nodes(atoms) then atoms + [a] else atoms
    case None => atoms
  }

  /** The body of the loop. */
  method TakeIn(h: Hit, soFar: seq<Atom>, seenSoFar: set<string>, read: Reader) returns (atoms: seq<Atom>, seen: set<string>)
    requires seenSoFar == Nodes(soFar)
    ensures atoms == WithHit(h, soFar, read) && seen == Nodes(atoms)
  {
    atoms, seen := soFar, seenSoFar;
    if h.node != "" && h.node !in seen {
      var atom := AtomOf(h, read);
      if atom.Some? {
        AppendNode(atoms, atom.value);
        atoms := atoms + [atom.value];
        seen := seen + {h.node};
      }
    }
  }

  /** One filling loop: append unseen atoms until `limit` is reached. */
  method Fill(hits: seq<Hit>, soFar: seq<Atom>, seenSoFar: set<string>, limit: int, read: Reader)
    returns (atoms: seq<Atom>, seen: set<string>)
    requires seenSoFar == Nodes(soFar)
    ensures atoms == Filled(soFar, hits, limit, read)
    ensures seen == Nodes(atoms)
  {
    atoms, seen := soFar, seenSoFar;
    var i := 0;
    assert hits[i..] == hits;
    while i < |hits| && |atoms| < limit
      invariant 0 <= i <= |hits|
      invariant seen == Nodes(atoms)
      invariant Filled(soFar, hits, limit, read) == Filled(atoms, hits[i..], limit, read)
    {
      var h := hits[i];
      assert hits[i..][0] == h && hits[i..][1..] == hits[i + 1..];
      FillStep(atoms, hits[i..], limit, read);
      atoms, seen := TakeIn(h, atoms, seen, read);
      i := i + 1;
    }
    NothingToFill(atoms, hits[i..], limit, read);
  }

  lemma FillStep(base: seq<Atom>, hits: seq<Hit>, limit: int, read: Reader)
    requires hits != [] && |base| < limit
    ensures Filled(base, hits, limit, read) == Filled(WithHit(hits[0], base, read), hits[1..], limit, read)
  {
    var atom := AtomOf(hits[0], read);
    if atom.Some? && hits[0].node !in Nodes(base) {
      FreshNew(hits, Nodes(base), read);
      AppendNode(base, atom.value);
      TakenOne(base, atom.value, Fresh(hits[1..], Nodes(base) + {hits[0].node}, read), limit);
    } else {
      FreshOld(hits, Nodes(base), read);
    }
  }

  lemma FreshNew(hits: seq<Hit>, taken: set<string>, read: Reader)
    requires hits != [] && AtomOf(hits[0], read).Some? && hits[0].node !in taken
    ensures var a := AtomOf(hits[0], read).value;
      a.node == hits[0].node && Fresh(hits, taken, read) == [a] + Fresh(hits[1..], taken + {a.node}, read)
  {
  }

  lemma FreshOld(hits: seq<Hit>, taken: set<string>, read: Reader)
    requires hits != [] && (AtomOf(hits[0], read).None? || hits[0].node in taken)
    ensures Fresh(hits, taken, read) == Fresh(hits[1..], taken, read)
  {
  }

  lemma TakenOne(base: seq<Atom>, a: Atom, rest: seq<Atom>, limit: int)
    requires |base| < limit
    ensures base + Take([a] + rest, limit - |base|) == (base + [a]) + Take(rest, limit - |base + [a]|)
  {
    TakeOne(a, rest, limit - |base|);
  }

  lemma AppendNode(atoms: seq<Atom>, a: Atom)
    ensures Nodes(atoms + [a]) == Nodes(atoms) + {a.node}
  {
    var all := atoms + [a];
    assert all[|atoms|] == a;
    forall n | n in Nodes(atoms) ensures n in Nodes(all) {
      var i :| 0 <= i < |atoms| && atoms[i].node == n;
      assert all[i].node == n;
    }
  }

  lemma TakeOne(a: Atom, rest: seq<Atom>, room: int)
    requires room > 0
    ensures Take([a] + rest, room) == [a] + Take(rest, room - 1)
  {
  }

  /** The first loop: the leading vector atoms, without looking at `seen`. */
  method VectorFill(hits: seq<Hit>, cap: nat, read: Reader) returns (atoms: seq<Atom>, seen: set<string>)
    ensures atoms == Take(Atoms(hits, read), cap)
    ensures seen == Nodes(atoms)
  {
    atoms, seen := [], {};
    var i := 0;
    while i < |hits| && |atoms| < cap
      invariant 0 <= i <= |hits|
      invariant seen == Nodes(atoms)
      invariant Take(Atoms(hits, read), cap) == atoms + Take(Atoms(hits[i..], read), cap - |atoms|)
    {
      assert hits[i..][0] == hits[i] && hits[i..][1..] == hits[i + 1..];
      var atom := AtomOf(hits[i], read);
      if atom.Some? {
        AppendNode(atoms, atom.value);
        AtomsFirst(hits[i..], atom.value, atoms, cap - |atoms|, read);
        atoms := atoms + [atom.value];
        seen := seen + {hits[i].node};
      }
      i := i + 1;
    }
  }

  lemma AtomsFirst(hits: seq<Hit>, a: Atom, before: seq<Atom>, room: int, read: Reader)
    requires room > 0 && hits != [] && AtomOf(hits[0], read) == Some(a)
    ensures before + Take(Atoms(hits, read), room) == (before + [a]) + Take(Atoms(hits[1..], read), room - 1)
  {
    TakeOne(a, Atoms(hits[1..], read), room);
    Appended(before, a, Take(Atoms(hits[1..], read), room - 1));
  }

  lemma Appended(before: seq<Atom>, a: Atom, rest: seq<Atom>)
    ensures before + ([a] + rest) == (before + [a]) + rest
  {
  }

  lemma NothingToFill(base: seq<Atom>, hits: seq<Hit>, limit: int, read: Reader)
    requires hits == [] || |base| >= limit
    ensures Filled(base, hits, limit, read) == base
  {
  }

  method AtomRetrieve(hits: seq<Hit>, bridges: Option<seq<Hit>>, k: int, fraction: real, read: Reader)
    returns (atoms: seq<Atom>)
    ensures atoms == Retrieved(hits, bridges, k, Reserve(k, fraction), read)
  {
    var reserve := Reserve(k, fraction);
    var seen;
    atoms, seen := VectorFill(hits, VectorCap(k, reserve), read);
    ghost var head := atoms;
    if reserve > 0 && bridges.Some? {
      atoms, seen := Fill(bridges.value, atoms, seen, k, read);
    } else {
      NothingToFill(head, [], k, read);
    }
    ghost var both := atoms;
    assert both == Filled(head, Candidates(reserve, bridges), k, read);
    if |atoms| < k {
      atoms, seen := Fill(hits, atoms, seen, k, read);
    } else {
      NothingToFill(both, hits, k, read);
    }
  }

  // ---- what the specification guarantees --------------------------------------------

  ghost predicate Distinct(atoms: seq<Atom>) {
    forall i, j :: 0 <= i < j < |atoms| ==> atoms[i].node != atoms[j].node
  }

  ghost predicate DistinctHits(hits: seq<Hit>) {
    forall i, j :: 0 <= i < j < |hits| ==> hits[i].node != hits[j].node
  }

  /** `a` is the atom of some hit of the list. */
  ghost predicate From(a: Atom, hits: seq<Hit>, read: Reader) {
    exists i :: 0 <= i < |hits| && AtomOf(hits[i], read) == Some(a)
  }

  /** Every readable hit of the list is represented in the set. */
  ghost predicate Covered(hits: seq<Hit>, nodes: set<string>, read: Reader) {
    forall i :: 0 <= i < |hits| && AtomOf(hits[i], read).Some? ==> hits[i].node in nodes
  }

  lemma FromTail(a: Atom, hits: seq<Hit>, read: Reader)
    requires hits != [] && From(a, hits[1..], read)
    ensures From(a, hits, read)
  {
    var i :| 0 <= i < |hits[1..]| && AtomOf(hits[1..][i], read) == Some(a);
    assert hits[i + 1] == hits[1..][i];
  }

  lemma {:induction false} AtomsAreFrom(hits: seq<Hit>, read: Reader)
    ensures forall i :: 0 <= i < |Atoms(hits, read)| ==> From(Atoms(hits, read)[i], hits, read)
  {
    if hits != [] {
      AtomsAreFrom(hits[1..], read);
      var rest := Atoms(hits[1..], read);
      forall a | From(a, hits[1..], read) ensures From(a, hits, read) { FromTail(a, hits, read); }
      assert AtomOf(hits[0], read).Some? ==> From(AtomOf(hits[0], read).value, hits, read);
    }
  }

  lemma {:induction false} AtomsAreDistinct(hits: seq<Hit>, read: Reader)
    requires DistinctHits(hits)
    ensures Distinct(Atoms(hits, read))
  {
    if hits != [] {
      var rest := Atoms(hits[1..], read);
      AtomsAreDistinct(hits[1..], read);
      AtomsAreFrom(hits[1..], read);
      forall i | 0 <= i < |rest| ensures rest[i].node != hits[0].node {
        assert From(rest[i], hits[1..], read);
        var j :| 0 <= j < |hits[1..]| && AtomOf(hits[1..][j], read) == Some(rest[i]);
        assert hits[j + 1] == hits[1..][j];
      }
    }
  }

  lemma NodeOf(atoms: seq<Atom>, i: int)
    requires 0 <= i < |atoms|
    ensures atoms[i].node in Nodes(atoms)
  {
  }

  lemma {:induction false} FreshIsDistinct(hits: seq<Hit>, taken: set<string>, read: Reader)
    ensures Nodes(Fresh(hits, taken, read)) !! taken
    ensures Distinct(Fresh(hits, taken, read))
    ensures forall i :: 0 <= i < |Fresh(hits, taken, read)| ==> From(Fresh(hits, taken, read)[i], hits, read)
  {
    if hits != [] {
      forall a | From(a, hits[1..], read) ensures From(a, hits, read) { FromTail(a, hits, read); }
      var first := AtomOf(hits[0], read);
      if first.Some? && first.value.node !in taken {
        var rest := Fresh(hits[1..], taken + {hits[0].node}, read);
        FreshIsDistinct(hits[1..], taken + {hits[0].node}, read);
        assert From(first.value, hits, read);
        forall i | 0 <= i < |rest| ensures rest[i].node != hits[0].node && rest[i].node !in taken { NodeOf(rest, i); }
      } else {
        FreshIsDistinct(hits[1..], taken, read);
      }
    }
  }

  lemma {:induction false} FreshCovers(hits: seq<Hit>, taken: set<string>, read: Reader)
    ensures Covered(hits, taken + Nodes(Fresh(hits, taken, read)), read)
  {
    if hits != [] {
      var picks := Fresh(hits, taken, read);
      var first := AtomOf(hits[0], read);
      var more := if first.Some? then taken + {hits[0].node} else taken;
      if first.Some? && hits[0].node !in taken {
        FreshCovers(hits[1..], more, read);
        var rest := Fresh(hits[1..], more, read);
        assert picks[0].node == hits[0].node;
        forall n | n in Nodes(rest) ensures n in Nodes(picks) {
          var i :| 0 <= i < |rest| && rest[i].node == n;
          assert picks[i + 1].node == n;
        }
      } else {
        FreshCovers(hits[1..], taken, read);
      }
      forall i | 0 <= i < |hits| && AtomOf(hits[i], read).Some? ensures hits[i].node in taken + Nodes(picks) {
        if i > 0 { assert hits[1..][i - 1] == hits[i]; }
      }
    }
  }

  lemma NodesOfSum(a: seq<Atom>, b: seq<Atom>)
    ensures Nodes(a + b) == Nodes(a) + Nodes(b)
  {
    var s := a + b;
    forall n | n in Nodes(a) + Nodes(b) ensures n in Nodes(s) {
      if n in Nodes(a) {
        var i :| 0 <= i < |a| && a[i].node == n;
        assert s[i].node == n;
      } else {
        var i :| 0 <= i < |b| && b[i].node == n;
        assert s[|a| + i].node == n;
      }
    }
  }

  lemma DistinctSum(a: seq<Atom>, b: seq<Atom>)
    requires Distinct(a) && Distinct(b) && Nodes(b) !! Nodes(a)
    ensures Distinct(a + b)
  {
    forall i, j | 0 <= i < |a| && 0 <= j < |b| ensures a[i].node != b[j].node {
      NodeOf(a, i);
      NodeOf(b, j);
    }
  }

  lemma TakeIsPrefix(atoms: seq<Atom>, room: int)
    ensures Take(atoms, room) <= atoms
    ensures Distinct(atoms) ==> Distinct(Take(atoms, room))
    ensures Nodes(Take(atoms, room)) <= Nodes(atoms)
    ensures |Take(atoms, room)| < room ==> Take(atoms, room) == atoms
  {
    var t := Take(atoms, room);
    forall n | n in Nodes(t) ensures n in Nodes(atoms) {
      var i :| 0 <= i < |t| && t[i].node == n;
      assert atoms[i].node == n;
    }
  }

  /** One phase appends unseen atoms of its list only, never past the limit, and stops short
      of the limit only when the whole list is represented. */
  lemma PhaseMeaning(base: seq<Atom>, hits: seq<Hit>, k: int, read: Reader)
    requires Distinct(base) && |base| <= k
    ensures var atoms := Filled(base, hits, k, read);
      && base <= atoms
      && Distinct(atoms)
      && |atoms| <= k
      && (forall i :: |base| <= i < |atoms| ==> From(atoms[i], hits, read))
      && (|atoms| < k ==> Covered(hits, Nodes(atoms), read))
  {
    var picks := Fresh(hits, Nodes(base), read);
    FreshIsDistinct(hits, Nodes(base), read);
    FreshCovers(hits, Nodes(base), read);
    TakeIsPrefix(picks, k - |base|);
    DistinctSum(base, Take(picks, k - |base|));
    NodesOfSum(base, Take(picks, k - |base|));
  }

  /** What a caller may rely on: at most `k` atoms, no node twice, the leading readable hits
      first, the rest from bridge candidates or hits only, and short of `k` only when every
      readable hit and every admitted readable bridge candidate is in it. */
  ghost predicate Faithful(atoms: seq<Atom>, hits: seq<Hit>, candidates: seq<Hit>, k: int, cap: nat, read: Reader) {
    && Take(Atoms(hits, read), cap) <= atoms
    && |atoms| <= (if k > 0 then k else 0)
    && Distinct(atoms)
    && (forall i :: 0 <= i < |atoms| ==> From(atoms[i], hits, read) || From(atoms[i], candidates, read))
    && (|atoms| < k ==> Covered(hits, Nodes(atoms), read) && Covered(candidates, Nodes(atoms), read))
  }

  lemma FilledIsFaithful(hits: seq<Hit>, candidates: seq<Hit>, k: nat, cap: nat, read: Reader)
    requires DistinctHits(hits) && cap <= k
    ensures Faithful(Filled(Filled(Take(Atoms(hits, read), cap), candidates, k, read), hits, k, read),
                     hits, candidates, k, cap, read)
  {
    var head := Take(Atoms(hits, read), cap);
    AtomsAreFrom(hits, read);
    AtomsAreDistinct(hits, read);
    TakeIsPrefix(Atoms(hits, read), cap);
    PhaseMeaning(head, candidates, k, read);
    var both := Filled(head, candidates, k, read);
    PhaseMeaning(both, hits, k, read);
    var atoms := Filled(both, hits, k, read);
    NodesOfSum(both, atoms[|both|..]);
    assert both + atoms[|both|..] == atoms;
  }

  lemma RetrievedIsFaithful(hits: seq<Hit>, bridges: Option<seq<Hit>>, k: int, fraction: real, read: Reader)
    requires 0.0 <= fraction <= 0.9
    requires DistinctHits(hits)
    ensures var reserve := Reserve(k, fraction);
      Faithful(Retrieved(hits, bridges, k, reserve, read), hits, Candidates(reserve, bridges), k, VectorCap(k, reserve), read)
  {
    ReserveLeavesRoom(k, fraction);
    var reserve := Reserve(k, fraction);
    if k > 0 {
      FilledIsFaithful(hits, Candidates(reserve, bridges), k, VectorCap(k, reserve), read);
    }
  }
}
