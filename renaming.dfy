/** What `isomorphism` looks for: a renumbering of the vertices of one
    graph onto those of another that keeps adjacency. The characteristic
    the search groups vertices by is invariant under such a renumbering,
    so grouping never separates a vertex from its image. */
module Renaming {
  import opened Base
  import opened CommonMixin
  import opened Characteristics

  /** No two vertices share an image. */
  ghost predicate Injective(phi: map<Node, Node>)
  {
    forall u, v :: u in phi && v in phi && u != v ==> phi[u] != phi[v]
  }

  /** `phi` relates adjacent vertices to adjacent vertices and
      non-adjacent ones to non-adjacent ones. */
  ghost predicate Consistent(g1: View, g2: View, phi: map<Node, Node>)
  {
    forall u, v :: u in phi && v in phi ==> (g1.Adjacent(u, v) <==> g2.Adjacent(phi[u], phi[v]))
  }

  /** A one-to-one correspondence between the vertices of `g1` and those
      of `g2`. */
  ghost predicate Bijection(g1: View, g2: View, phi: map<Node, Node>)
  {
    phi.Keys == g1.adj.Keys && phi.Values == g2.adj.Keys && Injective(phi)
  }

  /** An isomorphism from `g1` to `g2`. */
  ghost predicate IsIsomorphism(g1: View, g2: View, phi: map<Node, Node>)
  {
    Bijection(g1, g2, phi) && Consistent(g1, g2, phi)
  }

  ghost predicate Isomorphic(g1: View, g2: View)
  {
    exists phi :: IsIsomorphism(g1, g2, phi)
  }

  /** The images of the vertices of `xs`, in order. */
  function Image(phi: map<Node, Node>, xs: seq<Node>): (r: seq<Node>)
    requires forall x :: x in xs ==> x in phi
    ensures |r| == |xs| && forall k :: 0 <= k < |xs| ==> r[k] == phi[xs[k]]
  {
    seq(|xs|, k requires 0 <= k < |xs| => phi[xs[k]])
  }

  /** An injective map has as many images as keys. */
  lemma {:induction false} InjectiveCard(phi: map<Node, Node>)
    requires Injective(phi)
    ensures |phi.Values| == |phi.Keys|
    decreases |phi.Keys|
  {
    if phi.Keys != {} {
      var x :| x in phi.Keys;
      var rest := phi - {x};
      assert rest.Keys == phi.Keys - {x};
      assert rest.Values == phi.Values - {phi[x]} by {
        forall y | y in phi.Values ensures y in rest.Values || y == phi[x] {
          var u :| u in phi && phi[u] == y;
          if u != x {
            assert rest[u] == y;
          }
        }
      }
      InjectiveCard(rest);
    }
  }

  /** An injective map sends a list without duplicates to one. */
  lemma ImageDistinct(phi: map<Node, Node>, xs: seq<Node>)
    requires Injective(phi) && Distinct(xs) && forall x :: x in xs ==> x in phi
    ensures Distinct(Image(phi, xs))
  {
  }

  /** Two lists without duplicates and with the same elements are
      rearrangements of each other. */
  lemma {:induction false} SameElems(a: seq<Node>, b: seq<Node>)
    requires Distinct(a) && Distinct(b) && Elems(a) == Elems(b)
    ensures multiset(a) == multiset(b) && |a| == |b|
  {
    DistinctCard(a);
    DistinctCard(b);
    DistinctCount(a);
    DistinctCount(b);
    assert forall x :: multiset(a)[x] == multiset(b)[x];
  }

  /** In a list without duplicates every element occurs once. */
  lemma {:induction false} DistinctCount(a: seq<Node>)
    requires Distinct(a)
    ensures forall x :: multiset(a)[x] == if x in a then 1 else 0
  {
    if a != [] {
      var last := a[..|a| - 1];
      assert a == last + [a[|a| - 1]];
      DistinctCount(last);
    }
  }

  /** The degrees of a concatenation. */
  lemma {:induction false} DegreesConcat(g: View, a: seq<Node>, b: seq<Node>)
    requires Within(g, a) && Within(g, b)
    ensures Degrees(g, a + b) == Degrees(g, a) + Degrees(g, b)
    decreases |b|
  {
    if b != [] {
      var last := b[..|b| - 1];
      assert (a + b)[..|a + b| - 1] == a + last;
      DegreesConcat(g, a, last);
    } else {
      assert a + b == a;
    }
  }

  /** The degrees of a list depend only on its elements and their
      multiplicities. */
  lemma {:induction false} DegreesPerm(g: View, a: seq<Node>, b: seq<Node>)
    requires Within(g, a) && Within(g, b) && multiset(a) == multiset(b)
    ensures Degrees(g, a) == Degrees(g, b)
    decreases |a|
  {
    if a != [] {
      var x, rest := a[|a| - 1], a[..|a| - 1];
      assert x in multiset(b);
      var i :| 0 <= i < |b| && b[i] == x;
      var others := b[..i] + b[i + 1..];
      DropMatching(a, b, i);
      DegreesPerm(g, rest, others);
      DegreesDrop(g, b, i);
    } else {
      assert b == [];
    }
  }

  /** Dropping the last element of `a` and an equal element of a
      rearrangement `b` of it leaves rearrangements of each other. */
  lemma DropMatching(a: seq<Node>, b: seq<Node>, i: nat)
    requires a != [] && i < |b| && b[i] == a[|a| - 1] && multiset(a) == multiset(b)
    ensures multiset(a[..|a| - 1]) == multiset(b[..i] + b[i + 1..])
  {
    var x, rest, others := a[|a| - 1], a[..|a| - 1], b[..i] + b[i + 1..];
    assert a == rest + [x];
    assert b == b[..i] + [x] + b[i + 1..];
    assert multiset(a) == multiset(rest) + multiset{x};
    assert multiset(b) == multiset(others) + multiset{x};
    forall z ensures multiset(rest)[z] == multiset(others)[z] {
      assert multiset(a)[z] == multiset(rest)[z] + multiset{x}[z];
      assert multiset(b)[z] == multiset(others)[z] + multiset{x}[z];
    }
  }

  /** The degrees of a list are those of the list without its `i`-th
      element, plus that element's degree. */
  lemma DegreesDrop(g: View, b: seq<Node>, i: nat)
    requires Within(g, b) && i < |b|
    ensures Degrees(g, b) == Degrees(g, b[..i] + b[i + 1..]) + multiset{|g.adj[b[i]]|}
  {
    assert b == b[..i] + [b[i]] + b[i + 1..];
    DegreesConcat(g, b[..i], b[i + 1..]);
    DegreesConcat(g, b[..i] + [b[i]], b[i + 1..]);
    DegreesConcat(g, b[..i], [b[i]]);
    assert [b[i]][..0] == [];
  }

  /** Renaming every vertex of `ys` by a map that keeps degrees keeps
      their degrees. */
  lemma {:induction false} DegreesImage(g1: View, g2: View, phi: map<Node, Node>, ys: seq<Node>)
    requires Within(g1, ys) && forall y :: y in ys ==> y in phi
    requires forall y :: y in ys ==> phi[y] in g2.adj && |g2.adj[phi[y]]| == |g1.adj[y]|
    ensures Within(g2, Image(phi, ys))
    ensures Degrees(g2, Image(phi, ys)) == Degrees(g1, ys)
    decreases |ys|
  {
    if ys != [] {
      var n := |ys| - 1;
      var img := Image(phi, ys);
      assert ys[n] in ys && img[n] == phi[ys[n]];
      assert img[..n] == Image(phi, ys[..n]);
      DegreesImage(g1, g2, phi, ys[..n]);
      assert Degrees(g2, img) == Degrees(g2, img[..n]) + multiset{|g2.adj[img[n]]|};
    }
  }

  /** An injective map that sends the list `a` into the list `b` and
      reaches every element of `b` makes the image of `a` a rearrangement
      of `b`. */
  lemma Onto(phi: map<Node, Node>, a: seq<Node>, b: seq<Node>)
    requires Injective(phi) && Distinct(a) && Distinct(b)
    requires forall x :: x in a ==> x in phi && phi[x] in b
    requires forall w :: w in b ==> exists z :: z in a && phi[z] == w
    ensures multiset(Image(phi, a)) == multiset(b) && |a| == |b|
  {
    var img := Image(phi, a);
    ImageDistinct(phi, a);
    forall w | w in b ensures w in img {
      var z :| z in a && phi[z] == w;
      var k := IndexOf(a, z);
      assert img[k] == w;
    }
    SameElems(img, b);
  }

  /** A neighbour's image is a neighbour of the image. */
  lemma NeighbourImage(g1: View, g2: View, phi: map<Node, Node>, x: Node, z: Node)
    requires g1.WF() && IsIsomorphism(g1, g2, phi) && x in g1.adj && z in g1.adj[x]
    ensures z in phi && phi[z] in g2.adj[phi[x]]
  {
    assert g1.Adjacent(x, z);
  }

  /** A neighbour of the image is the image of a neighbour. */
  lemma NeighbourPreimage(g1: View, g2: View, phi: map<Node, Node>, x: Node, w: Node)
    requires g2.WF() && IsIsomorphism(g1, g2, phi) && x in g1.adj && w in g2.adj[phi[x]]
    ensures exists z :: z in g1.adj[x] && z in phi && phi[z] == w
  {
    assert w in g2.adj && w in phi.Values;
    var z :| z in phi && phi[z] == w;
    assert g1.Adjacent(x, z);
  }

  /** An isomorphism sends the neighbour list of `x` onto that of its
      image. */
  lemma NeighboursImage(g1: View, g2: View, phi: map<Node, Node>, x: Node)
    requires g1.WF() && g2.WF() && IsIsomorphism(g1, g2, phi) && x in g1.adj
    ensures forall z :: z in g1.adj[x] ==> z in phi
    ensures multiset(Image(phi, g1.adj[x])) == multiset(g2.adj[phi[x]])
    ensures |g1.adj[x]| == |g2.adj[phi[x]]|
  {
    var a, b := g1.adj[x], g2.adj[phi[x]];
    forall z | z in a ensures z in phi && phi[z] in b {
      NeighbourImage(g1, g2, phi, x, z);
    }
    forall w | w in b ensures exists z :: z in a && phi[z] == w {
      NeighbourPreimage(g1, g2, phi, x, w);
    }
    Onto(phi, a, b);
  }

  /** An isomorphism keeps every vertex's characteristic. */
  lemma CharPreserved(g1: View, g2: View, phi: map<Node, Node>, x: Node)
    requires g1.WF() && g2.WF() && IsIsomorphism(g1, g2, phi) && x in g1.adj
    ensures phi[x] in g2.adj && Char(g2, phi[x]) == Char(g1, x)
  {
    var ns := g1.adj[x];
    NeighboursImage(g1, g2, phi, x);
    forall y | y in ns ensures phi[y] in g2.adj && |g2.adj[phi[y]]| == |g1.adj[y]| {
      NeighboursImage(g1, g2, phi, y);
    }
    DegreesImage(g1, g2, phi, ns);
    DegreesPerm(g2, Image(phi, ns), g2.adj[phi[x]]);
  }

  /** The image of a vertex with characteristic `c` has it too. */
  lemma MemberImage(g1: View, g2: View, phi: map<Node, Node>, c: Characteristic, x: Node)
    requires g1.WF() && g2.WF() && IsIsomorphism(g1, g2, phi)
    requires x in Members(g1, g1.nodes, c)
    ensures x in phi && phi[x] in Members(g2, g2.nodes, c)
  {
    assert x in g1.nodes;
    CharPreserved(g1, g2, phi, x);
    assert phi[x] in g2.nodes;
  }

  /** A vertex of `g2` with characteristic `c` is the image of one of
      `g1` with it. */
  lemma MemberPreimage(g1: View, g2: View, phi: map<Node, Node>, c: Characteristic, w: Node)
    requires g1.WF() && g2.WF() && IsIsomorphism(g1, g2, phi)
    requires w in Members(g2, g2.nodes, c)
    ensures exists z :: z in Members(g1, g1.nodes, c) && phi[z] == w
  {
    assert w in g2.nodes;
    assert w in phi.Values;
    var z :| z in phi && phi[z] == w;
    CharPreserved(g1, g2, phi, z);
    assert z in g1.nodes;
  }

  /** An isomorphism maps the vertices of `g1` with characteristic `c`
      onto those of `g2` with it. */
  lemma MembersImage(g1: View, g2: View, phi: map<Node, Node>, c: Characteristic)
    requires g1.WF() && g2.WF() && IsIsomorphism(g1, g2, phi)
    ensures |Members(g1, g1.nodes, c)| == |Members(g2, g2.nodes, c)|
  {
    var m1, m2 := Members(g1, g1.nodes, c), Members(g2, g2.nodes, c);
    forall x | x in m1 ensures x in phi && phi[x] in m2 {
      MemberImage(g1, g2, phi, c, x);
    }
    forall w | w in m2 ensures exists z :: z in m1 && phi[z] == w {
      MemberPreimage(g1, g2, phi, c, w);
    }
    Onto(phi, m1, m2);
  }

  /** Isomorphic graphs have the same order. */
  lemma IsomorphicOrder(g1: View, g2: View, phi: map<Node, Node>)
    requires g1.WF() && g2.WF() && Bijection(g1, g2, phi)
    ensures g1.Order() == g2.Order()
  {
    InjectiveCard(phi);
    OrderIsVertexCount(g1);
    OrderIsVertexCount(g2);
  }

  /** Isomorphic graphs pass the size check on every group. */
  lemma IsomorphicBalanced(g1: View, g2: View, phi: map<Node, Node>)
    requires g1.WF() && g2.WF() && IsIsomorphism(g1, g2, phi)
    ensures AllBalanced(Grouped(g1, g2))
  {
    GroupedMeaning(g1, g2);
    forall c | c in Grouped(g1, g2).m ensures |Grouped(g1, g2).m[c].0| == |Grouped(g1, g2).m[c].1| {
      MembersImage(g1, g2, phi, c);
    }
  }
}
