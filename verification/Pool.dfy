/** `compress_body` and `decompress_body` (samia/core/ia.py) on a pool updated in place. */
module Pool {
  import opened Options
  import opened Segments
  import D = PoolData

  datatype Ref = Ref(poolAddr: string, segmentId: string)

  function Refs(addrs: seq<string>): seq<Ref> {
    seq(|addrs|, i requires 0 <= i < |addrs| => Ref(addrs[i], SegmentId(i)))
  }

  class Store {
    const digest: D.Digest
    var entries: map<string, D.PoolEntry>
    var order: seq<string>
    var density: real

    constructor (d: D.Digest)
      ensures Valid() && digest == d && View() == D.EMPTY
    {
      digest, entries, order, density := d, map[], [], 0.0;
    }

    function View(): D.Pool
      reads this
    {
      D.Pool(entries, order)
    }

    ghost predicate Valid()
      reads this
    {
      D.Valid(View(), digest) && D.Clean(View()) && density == D.Density(View())
    }

    /** The scan of the entries for a digest. */
    method Find(hash: string) returns (found: Option<string>)
      requires D.Ordered(View())
      ensures found == D.Find(entries, order, hash)
    {
      var i := 0;
      assert order[0..] == order;
      while i < |order|
        invariant 0 <= i <= |order|
        invariant D.Find(entries, order, hash) == D.Find(entries, order[i..], hash)
      {
        assert order[i..][0] == order[i] && order[i..][1..] == order[i + 1..];
        if entries[order[i]].contentHash == hash { return Some(order[i]); }
        i := i + 1;
      }
      found := None;
    }

    /** One segment: an entry of the same digest gains a reference, otherwise a new entry is
        added at the next address. */
    method Absorb(content: string, node: string) returns (addr: string)
      requires D.Ordered(View())
      modifies this`entries, this`order
      ensures View() == D.Absorbed(old(View()), content, node, digest)
      ensures addr == D.Placed(old(View()), content, digest)
    {
      var found := Find(digest(content));
      match found {
        case Some(a) =>
          if a in entries { entries := entries[a := D.Bumped(entries[a], node)]; }
          addr := a;
        case None =>
          addr := D.NextAddr(View());
          if addr !in entries { order := order + [addr]; }
          entries := entries[addr := D.NewEntry(content, node, digest)];
      }
    }

    /** The loop of `compress_body`. */
    method AbsorbAll(contents: seq<string>, node: string) returns (addrs: seq<string>)
      requires D.Ordered(View())
      modifies this`entries, this`order
      ensures View() == D.AbsorbedAll(old(View()), contents, node, digest)
      ensures addrs == D.PlacedAll(old(View()), contents, node, digest)
    {
      ghost var before := View();
      addrs := [];
      for i := 0 to |contents|
        invariant View() == D.AbsorbedAll(before, contents[..i], node, digest)
        invariant addrs == D.PlacedAll(before, contents[..i], node, digest)
      {
        D.AbsorbedNext(before, contents, i, node, digest);
        var addr := Absorb(contents[i], node);
        addrs := addrs + [addr];
      }
      assert contents[..|contents|] == contents;
    }

    method CompressParagraphs(contents: seq<string>, node: string) returns (addrs: seq<string>)
      requires Valid() && AllParagraphs(contents)
      modifies this
      ensures Valid()
      ensures View() == D.AbsorbedAll(old(View()), contents, node, digest)
      ensures addrs == D.PlacedAll(old(View()), contents, node, digest)
    {
      D.PoolStep(View(), contents, node, digest);
      addrs := AbsorbAll(contents, node);
      density := D.Density(View());
    }

    /** `compress_body`: the references pair each segment's address with its id. */
    method CompressBody(body: string, node: string) returns (refs: seq<Ref>)
      requires Valid()
      modifies this
      ensures Valid()
      ensures View() == D.AbsorbedAll(old(View()), Paragraphs(body), node, digest)
      ensures refs == Refs(D.PlacedAll(old(View()), Paragraphs(body), node, digest))
    {
      SegmentsAreParagraphs(body);
      var addrs := CompressParagraphs(Paragraphs(body), node);
      refs := Refs(addrs);
    }

    /** `decompress_body` */
    method DecompressBody(refs: seq<Ref>) returns (text: string)
      ensures text == D.Decompressed(View(), seq(|refs|, i requires 0 <= i < |refs| => refs[i].poolAddr))
    {
      var parts: seq<string> := [];
      ghost var addrs := seq(|refs|, i requires 0 <= i < |refs| => refs[i].poolAddr);
      for i := 0 to |refs|
        invariant |parts| == i && forall k :: 0 <= k < i ==> parts[k] == D.Part(View(), refs[k].poolAddr)
      {
        parts := parts + [D.Part(View(), refs[i].poolAddr)];
      }
      assert parts == D.Parts(View(), addrs);
      text := Joined(parts);
    }
  }
}
