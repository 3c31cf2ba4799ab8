/** The contextual index (samia/core/vector_contextual.py): each node is embedded behind a
    prefix naming its chain and siblings, so a cached row depends on chain membership too. */
module VectorContextual {
  import opened Options
  import opened IndexData
  import VectorIndex
  import Strings

  /** One manifest of `chains/`, with its file stem; member entries may lack a file. */
  datatype ChainFile = Unreadable | ChainFile(stem: string, chainId: Option<string>, files: seq<Option<string>>)

  datatype Context = Context(chainId: string, neighbours: seq<string>)

  const NEIGHBOURS := 6

  // ---- paths --------------------------------------------------------------------------

  /** The last of the parts that are neither empty nor ".". */
  function LastPart(parts: seq<string>): string {
    if parts == [] then ""
    else
      var last := parts[|parts| - 1];
      if last != "" && last != "." then last else LastPart(parts[..|parts| - 1])
  }

  /** `Path(f).name` */
  function PathName(f: string): string {
    LastPart(Strings.Split(f, "/"))
  }

  /** The position of the last dot, or -1. */
  function LastDot(name: string): (i: int)
    ensures -1 <= i < |name|
  {
    if name == "" then -1
    else if name[|name| - 1] == '.' then |name| - 1
    else LastDot(name[..|name| - 1])
  }

  /** `Path(f).stem`, from the name. */
  function Stem(name: string): string {
    var i := LastDot(name);
    if 0 < i < |name| - 1 then name[..i] else name
  }

  // ---- the chain context of a node ------------------------------------------------------

  predicate HasFile(f: Option<string>) {
    f.Some? && f.value != ""
  }

  predicate Mentions(c: ChainFile, fname: string) {
    c.ChainFile? && exists i :: 0 <= i < |c.files| && HasFile(c.files[i]) && PathName(c.files[i].value) == fname
  }

  /** The stems of the members that have a file, in order. */
  function MemberStems(files: seq<Option<string>>): seq<string> {
    if files == [] then []
    else
      var n := |files| - 1;
      MemberStems(files[..n]) + if HasFile(files[n]) then [Stem(PathName(files[n].value))] else []
  }

  function Others(stems: seq<string>, own: string): seq<string> {
    if stems == [] then []
    else
      var n := |stems| - 1;
      Others(stems[..n], own) + if stems[n] != own then [stems[n]] else []
  }

  function ChainIdOf(c: ChainFile): string
    requires c.ChainFile?
  {
    if c.chainId.Some? && c.chainId.value != "" then c.chainId.value else c.stem
  }

  function Leading(names: seq<string>): seq<string> {
    if |names| <= NEIGHBOURS then names else names[..NEIGHBOURS]
  }

  function ContextIn(c: ChainFile, fname: string): Context
    requires c.ChainFile?
  {
    Context(ChainIdOf(c), Leading(Others(MemberStems(c.files), Stem(fname))))
  }

  /** The context of a file: that of the last readable chain it is a member of. */
  function ContextOf(chains: seq<ChainFile>, fname: string): Option<Context> {
    if chains == [] then None
    else
      var n := |chains| - 1;
      if Mentions(chains[n], fname) then Some(ContextIn(chains[n], fname)) else ContextOf(chains[..n], fname)
  }

  lemma {:induction false} OthersAre(stems: seq<string>, own: string)
    ensures forall s :: s in Others(stems, own) <==> s in stems && s != own
  {
    if stems != [] {
      var n := |stems| - 1;
      OthersAre(stems[..n], own);
      assert stems == stems[..n] + [stems[n]];
    }
  }

  lemma {:induction false} MemberStemsAre(files: seq<Option<string>>, s: string)
    ensures s in MemberStems(files)
       <==> exists i :: 0 <= i < |files| && HasFile(files[i]) && Stem(PathName(files[i].value)) == s
  {
    if files != [] {
      var n := |files| - 1;
      MemberStemsAre(files[..n], s);
      if i :| 0 <= i < |files| && HasFile(files[i]) && Stem(PathName(files[i].value)) == s {
        assert i < n ==> files[..n][i] == files[i];
      }
    }
  }

  /** Some member of the chain has a file of this stem. */
  predicate HasStem(c: ChainFile, s: string)
    requires c.ChainFile?
  {
    exists i :: 0 <= i < |c.files| && HasFile(c.files[i]) && Stem(PathName(c.files[i].value)) == s
  }

  /** A node's siblings are at most six, each is the stem of another member's file, and with fewer
      than six none is left out. */
  lemma NeighboursAreOthers(c: ChainFile, fname: string)
    requires c.ChainFile?
    ensures var listed := ContextIn(c, fname).neighbours;
      && |listed| <= NEIGHBOURS
      && (forall s :: s in listed ==> s != Stem(fname) && HasStem(c, s))
      && (|listed| < NEIGHBOURS ==> forall s :: s != Stem(fname) && HasStem(c, s) ==> s in listed)
  {
    var stems := MemberStems(c.files);
    OthersAre(stems, Stem(fname));
    forall s ensures s in stems <==> HasStem(c, s) { MemberStemsAre(c.files, s); }
    var listed := ContextIn(c, fname).neighbours;
    forall s | s in listed ensures s in Others(stems, Stem(fname)) {}
  }

  /** The inversion of the manifests into one lookup table. */
  method BuildNodeToChainMap(chains: seq<ChainFile>) returns (table: map<string, Context>)
    ensures forall fname :: fname in table <==> ContextOf(chains, fname).Some?
    ensures forall fname :: fname in table ==> table[fname] == ContextOf(chains, fname).value
  {
    table := map[];
    for k := 0 to |chains|
      invariant forall fname :: fname in table <==> ContextOf(chains[..k], fname).Some?
      invariant forall fname :: fname in table ==> table[fname] == ContextOf(chains[..k], fname).value
    {
      var c := chains[k];
      assert chains[..k + 1][..k] == chains[..k];
      if c.ChainFile? {
        table := AddChain(c, table);
      }
    }
    assert chains[..|chains|] == chains;
  }

  method AddChain(c: ChainFile, before: map<string, Context>) returns (table: map<string, Context>)
    requires c.ChainFile?
    ensures forall fname :: fname in table <==> fname in before || Mentions(c, fname)
    ensures forall fname :: fname in table ==> table[fname] == if Mentions(c, fname) then ContextIn(c, fname) else before[fname]
  {
    table := before;
    var stems := MemberStems(c.files);
    for i := 0 to |c.files|
      invariant forall fname :: fname in table <==> fname in before || MentionsIn(c, i, fname)
      invariant forall fname :: fname in table ==> table[fname] == if MentionsIn(c, i, fname) then ContextIn(c, fname) else before[fname]
    {
      if HasFile(c.files[i]) {
        var fname := PathName(c.files[i].value);
        table := table[fname := Context(ChainIdOf(c), Leading(Others(stems, Stem(fname))))];
      }
    }
  }

  predicate MentionsIn(c: ChainFile, k: nat, fname: string)
    requires c.ChainFile? && k <= |c.files|
  {
    exists i :: 0 <= i < k && HasFile(c.files[i]) && PathName(c.files[i].value) == fname
  }

  // ---- the text that is embedded ----------------------------------------------------------

  const SINGLETON := "This node is a singleton (no chain). "
  const CHAINED := "This node is in chain '"
  const LISTED := "' with sibling nodes: "
  const NO_SIBLINGS := "(no siblings)"

  function Printed(chainId: string): string {
    if chainId == "" then "?" else chainId
  }

  function Listing(names: seq<string>): string {
    if names == [] then NO_SIBLINGS else Strings.Join(", ", names)
  }

  function Prefix(context: Option<Context>): string {
    match context
    case None => SINGLETON
    case Some(c) => CHAINED + Printed(c.chainId) + LISTED + Listing(c.neighbours) + ". "
  }

  function Lookup(table: map<string, Context>, fname: string): Option<Context> {
    if fname in table then Some(table[fname]) else None
  }

  /** The plain loader's result behind the prefix of the present chains. */
  function InContext(base: Reader, chains: seq<ChainFile>): Reader {
    (fname: string) =>
      match base(fname)
      case None => None
      case Some(l) => Some(Loaded(l.rel, l.title, Prefix(ContextOf(chains, fname)) + l.content))
  }

  /** `inChain` are the files whose manifest entry is flagged as a chain member. */
  datatype Outcome = NothingListed | FileMissing | Wrote(count: nat, inChain: set<string>, chained: nat)

  function Members(listing: seq<string>, chains: seq<ChainFile>): set<string> {
    set fname | fname in listing && ContextOf(chains, fname).Some?
  }

  /** The membership flags of the manifest. */
  method Flags(listing: seq<string>, table: map<string, Context>, ghost chains: seq<ChainFile>) returns (flagged: set<string>)
    requires forall fname :: fname in table <==> ContextOf(chains, fname).Some?
    ensures flagged == Members(listing, chains)
  {
    flagged := {};
    for i := 0 to |listing|
      invariant flagged == Members(listing[..i], chains)
    {
      assert listing[..i + 1] == listing[..i] + [listing[i]];
      if listing[i] in table { flagged := flagged + {listing[i]}; }
    }
    assert listing[..|listing|] == listing;
  }

  predicate AllReadable(listing: seq<string>, base: Reader) {
    forall i :: 0 <= i < |listing| ==> base(listing[i]).Some?
  }

  lemma {:induction false} LoadedAll(listing: seq<string>, base: Reader, chains: seq<ChainFile>)
    requires AllReadable(listing, base)
    ensures |LoadAll(listing, InContext(base, chains))| == |listing|
  {
    if listing != [] {
      LoadedAll(listing[..|listing| - 1], base, chains);
    }
  }

  /** `build`: an unreadable listed file aborts it before anything is written; otherwise the
      index becomes that of a rebuild from the present files and the present chains, also when
      only the chains have changed since the last build. */
  method Build(index: VectorIndex.Index, listing: seq<string>, base: Reader, chains: seq<ChainFile>, rebuild: bool)
    returns (outcome: Outcome)
    requires index.Valid()
    requires Distinct(LoadAll(listing, InContext(base, chains)))
    modifies index
    ensures index.Valid()
    ensures if listing == [] then outcome == NothingListed && index.View() == old(index.View())
      else if !AllReadable(listing, base) then outcome == FileMissing && index.View() == old(index.View())
      else
        && outcome == Wrote(|listing|, Members(listing, chains), |Members(listing, chains)|)
        && index.View() == Rebuilt(LoadAll(listing, InContext(base, chains)), index.backend)
  {
    if listing == [] { return NothingListed; }
    var table := BuildNodeToChainMap(chains);
    for i := 0 to |listing|
      invariant forall j :: 0 <= j < i ==> base(listing[j]).Some?
    {
      if base(listing[i]).None? { return FileMissing; }
    }
    LoadedAll(listing, base, chains);
    var read := InTable(base, table);
    SameReaders(base, table, chains);
    SameReading(listing, read, InContext(base, chains));
    var flagged := Flags(listing, table, chains);
    var inner := index.Build(listing, read, rebuild);
    outcome := Wrote(|listing|, flagged, |flagged|);
  }

  /** The loader of the build, behind the prefix of the lookup table. */
  function InTable(base: Reader, table: map<string, Context>): Reader {
    (fname: string) =>
      match base(fname)
      case None => None
      case Some(l) => Some(Loaded(l.rel, l.title, Prefix(Lookup(table, fname)) + l.content))
  }

  lemma SameReaders(base: Reader, table: map<string, Context>, chains: seq<ChainFile>)
    requires forall fname :: fname in table <==> ContextOf(chains, fname).Some?
    requires forall fname :: fname in table ==> table[fname] == ContextOf(chains, fname).value
    ensures forall fname :: InTable(base, table)(fname) == InContext(base, chains)(fname)
  {
    forall fname ensures Lookup(table, fname) == ContextOf(chains, fname) {}
  }

  lemma {:induction false} SameReading(listing: seq<string>, f: Reader, g: Reader)
    requires forall fname :: f(fname) == g(fname)
    ensures LoadAll(listing, f) == LoadAll(listing, g)
  {
    if listing != [] {
      SameReading(listing[..|listing| - 1], f, g);
    }
  }
}
