/** What the lifecycle reads and sets in node headers (samia/core/ia.py). */
module NodeFields {
  import opened Options
  import Frontmatter
  import Scalars

  /** The texts of floats and lists. */
  datatype Texts = Texts(floats: Scalars.FloatCodec, listText: seq<string> -> string)

  function PathOf(name: string): string {
    name + ".md"
  }

  function Field(h: Frontmatter.Head, k: string): Option<Scalars.Val> {
    if k in h.fm then Some(h.fm[k]) else None
  }

  /** `str(v)` */
  function PyStr(v: Scalars.Val, t: Texts): string {
    match v
    case Bool(b) => if b then "True" else "False"
    case Int(n) => Scalars.ShowInt(n)
    case Float(x) => t.floats.show(x)
    case List(items) => t.listText(items)
    case Str(s) => s
  }

  predicate IsHot(h: Frontmatter.Head) {
    Field(h, "tier") == Some(Scalars.Str("hot"))
  }

  // ---- setting fields ------------------------------------------------------------------------

  function WithField(h: Frontmatter.Head, k: string, v: Scalars.Val): Frontmatter.Head {
    h.(fm := h.fm[k := v], keys := if k in h.fm then h.keys else h.keys + [k])
  }

  /** The header a node comes back with. */
  function WarmHead(h: Frontmatter.Head, today: string): Frontmatter.Head {
    WithField(WithField(WithField(h, "tier", Scalars.Str("warm")), "relevance", Scalars.Float(0.5)),
              "last_access", Scalars.Str(today))
  }
}
