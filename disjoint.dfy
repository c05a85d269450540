/**
 * The map-based union-find of printStudentZone: `comp` maps an element to
 * its representative link, a missing element is added as its own root on
 * first lookup, find compresses the path it walks, and unite links the
 * root of the first element under the root of the second.
 */
module DisjointSets {

  /** The label of x under a partition given as a map; an element the map does not hold is alone. */
  function LabelOf(lab: map<int, int>, x: int): int {
    if x in lab then lab[x] else x
  }

  /** The partition after joining the part of a to the part of b: a's label becomes b's. */
  function Merge(lab: map<int, int>, a: int, b: int): (r: map<int, int>)
    ensures forall y :: (LabelOf(r, y) ==
      if LabelOf(lab, y) == LabelOf(lab, a) then LabelOf(lab, b) else LabelOf(lab, y))
  {
    var la, lb := LabelOf(lab, a), LabelOf(lab, b);
    map y | y in lab.Keys + {a, b, la} :: if LabelOf(lab, y) == la then lb else LabelOf(lab, y)
  }

  /** The union-find's maps: links, the root each element leads to, and ranks below a bound. */
  datatype Forest = Forest(comp: map<int, int>, part: map<int, int>, rank: map<int, nat>, bound: nat)

  /**
   * What the invariant asks of one element x: its link stays inside, its
   * root is a root that its link's root agrees with, it is a root exactly
   * when its link is itself, and ranks increase strictly along the link and
   * towards the root.
   */
  ghost predicate NodeOk(f: Forest, x: int)
    requires f.comp.Keys == f.part.Keys && f.comp.Keys == f.rank.Keys
  {
    x in f.comp &&
    f.comp[x] in f.comp && f.rank[x] <= f.bound &&
    (f.comp[x] != x ==> f.rank[x] < f.rank[f.comp[x]]) &&
    f.part[x] in f.comp && f.comp[f.part[x]] == f.part[x] && f.part[f.comp[x]] == f.part[x] &&
    (f.part[x] != x ==> f.rank[x] < f.rank[f.part[x]]) &&
    (f.comp[x] == x <==> f.part[x] == x)
  }

  ghost predicate Wf(f: Forest) {
    match f
    case Forest(comp, part, rank, _) =>
      comp.Keys == part.Keys && comp.Keys == rank.Keys &&
      forall x {:trigger NodeOk(f, x)} :: x in comp ==> NodeOk(f, x)
  }

  /** Every element whose root is pa gets root pb. */
  function Relabel(part: map<int, int>, pa: int, pb: int): (r: map<int, int>)
    ensures r.Keys == part.Keys
    ensures forall y :: y in part ==> r[y] == if part[y] == pa then pb else part[y]
  {
    map y | y in part :: if part[y] == pa then pb else part[y]
  }

  /** A new element becomes its own root. */
  lemma InsertKeepsForest(f: Forest, x: int, f': Forest)
    requires Wf(f) && x !in f.comp
    requires f' == Forest(f.comp[x := x], f.part[x := x], f.rank[x := 0], f.bound)
    ensures Wf(f')
  {
    forall y | y in f'.comp ensures NodeOk(f', y) {
      if y != x {
        assert NodeOk(f, y);
      }
    }
  }

  /** Path compression: linking an element straight to its root keeps the invariant. */
  lemma CompressKeepsForest(f: Forest, x: int, f': Forest)
    requires Wf(f) && x in f.comp
    requires f' == f.(comp := f.comp[x := f.part[x]])
    ensures Wf(f')
  {
    assert NodeOk(f, x);
    forall y | y in f'.comp ensures NodeOk(f', y) {
      assert NodeOk(f, y);
      assert NodeOk(f, f.part[y]);
    }
  }

  /** unite's one change to the links: pa now points at pb. */
  function Link(comp: map<int, int>, pa: int, pb: int): map<int, int> {
    comp[pa := pb]
  }

  /** The maps after linking root pa under root pb, raising pb's rank above pa's if need be. */
  function Linked(f: Forest, pa: int, pb: int): Forest
    requires pa in f.rank && pb in f.rank
  {
    var newRank := if f.rank[pb] > f.rank[pa] then f.rank[pb] else f.rank[pa] + 1;
    Forest(Link(f.comp, pa, pb), Relabel(f.part, pa, pb), f.rank[pb := newRank],
           if f.bound >= newRank then f.bound else newRank)
  }

  /** Linking one root under another keeps the invariant and joins the two parts. */
  lemma LinkKeepsForest(f: Forest, pa: int, pb: int)
    requires Wf(f)
    requires pa in f.comp && pb in f.comp && f.comp[pa] == pa && f.comp[pb] == pb && pa != pb
    ensures Wf(Linked(f, pa, pb))
    ensures forall y :: (LabelOf(Linked(f, pa, pb).part, y) ==
      if LabelOf(f.part, y) == pa then pb else LabelOf(f.part, y))
  {
    var f' := Linked(f, pa, pb);
    assert NodeOk(f, pa) && NodeOk(f, pb);
    forall y | y in f'.comp ensures NodeOk(f', y) {
      assert NodeOk(f, y);
      assert NodeOk(f, f.comp[y]);
    }
  }

  class UnionFind {
    /** The links of the source's `comp`: a root is linked to itself. */
    var comp: map<int, int>
    /** The root that each element's links lead to. */
    ghost var part: map<int, int>
    /** Ranks strictly increase along links; they bound the length of every path. */
    ghost var rank: map<int, nat>
    ghost var bound: nat

    ghost function State(): Forest
      reads this
    {
      Forest(comp, part, rank, bound)
    }

    ghost predicate Valid()
      reads this
    {
      Wf(State())
    }

    /** The partition the structure stands for, as a label per element. */
    ghost function Label(x: int): int
      reads this
    {
      LabelOf(part, x)
    }

    /** An empty structure: every element alone. */
    constructor ()
      ensures Valid() && comp == map[] && part == map[]
    {
      comp := map[];
      part := map[];
      rank := map[];
      bound := 0;
    }

    /**
     * findp: the root of x. A missing x is added as its own root; every
     * element on the walked path is then linked straight to the root. The
     * partition does not change.
     */
    method Find(x: int) returns (r: int)
      requires Valid()
      modifies this
      ensures Valid()
      ensures x in comp && r == part[x] && r == old(Label(x))
      ensures forall y :: y in old(comp) ==> y in comp
      ensures forall y :: Label(y) == old(Label(y))
      decreases if x in comp then bound - rank[x] else bound + 1
    {
      if x !in comp {
        ghost var f := State();
        comp := comp[x := x];
        part := part[x := x];
        rank := rank[x := 0];
        InsertKeepsForest(f, x, State());
      }
      assert NodeOk(State(), x);
      if comp[x] == x {
        return x;
      }
      ghost var lx := Label(x);
      r := Find(comp[x]);
      assert Label(x) == lx;
      ghost var f := State();
      comp := comp[x := r];
      CompressKeepsForest(f, x, State());
    }

    /** Links root pa under root pb. */
    method LinkRoots(pa: int, pb: int)
      requires pa in rank && pb in rank
      modifies this
      ensures State() == Linked(old(State()), pa, pb)
    {
      ghost var g := Linked(State(), pa, pb);
      comp := Link(comp, pa, pb);
      part, rank, bound := g.part, g.rank, g.bound;
    }

    /** unite: when a and b have different roots, the root of a is linked under the root of b. */
    method Unite(a: int, b: int)
      requires Valid()
      modifies this
      ensures Valid()
      ensures forall y :: y in old(comp) ==> y in comp
      ensures forall y :: (Label(y) ==
        if old(Label(y)) == old(Label(a)) then old(Label(b)) else old(Label(y)))
    {
      var pa := Find(a);
      var pb := Find(b);
      assert NodeOk(State(), a) && NodeOk(State(), b);
      if pa != pb {
        LinkKeepsForest(State(), pa, pb);
        LinkRoots(pa, pb);
      }
    }
  }
}
