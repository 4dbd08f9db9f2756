/** Memories and the typed relationships between them, as consolidation sees them. */
module MemoryGraph {
  import opened Basics
  import Text

  /** `validTo == None` is an active memory; times are seconds. */
  datatype Memory = Memory(createdAt: int, active: bool, immutable: bool)

  datatype Kind = Contradicts | Supersedes | Other(name: string)

  /** Relationships are unique by source, target and type. */
  datatype Edge = Edge(source: string, target: string, kind: Kind)

  type Relations = map<Edge, real>

  predicate Touches(e: Edge, id: string) {
    e.source == id || e.target == id
  }

  function RelationsOf(rels: Relations, id: string): set<Edge> {
    set e | e in rels && Touches(e, id)
  }

  /** An unordered pair, smaller id first. */
  function Canonical(a: string, b: string): (string, string) {
    if Text.Less(a, b) then (a, b) else (b, a)
  }

  /** Two pairs have one canonical form exactly when they are the same unordered pair. */
  lemma CanonicalIsUnordered(a: string, b: string, c: string, d: string)
    ensures Canonical(a, b) == Canonical(c, d) <==> (a == c && b == d) || (a == d && b == c)
  {
    Text.LessTotal(a, b);
    Text.LessTotal(c, d);
    Asymmetric(a, b);
    Asymmetric(c, d);
  }

  lemma Asymmetric(a: string, b: string)
    ensures !(Text.Less(a, b) && Text.Less(b, a))
  {
    Text.LessIrreflexive(a);
    if Text.Less(a, b) && Text.Less(b, a) {
      Text.LessTransitive(a, b, a);
    }
  }
}
