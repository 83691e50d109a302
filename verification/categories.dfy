/** Category resolution: closing the requested categories under the category tree, then
    collecting the dictionary fields of the closed categories. */
module Categories {
  import opened Tables
  import opened Seqs

  /** Children, in tree order, of categories already listed that are not listed yet:
      what one pass of the closure loop appends. */
  function NewChildren(cats: seq<int>, tree: seq<CategoryEdge>): (r: seq<int>)
    ensures forall x :: x in r ==> x !in cats
    ensures forall x :: x in r <==> exists e :: e in tree && e.parentID in cats && e.childID !in cats && e.childID == x
  {
    if tree == [] then []
    else
      var e := tree[0];
      assert forall f :: f in tree <==> f == e || f in tree[1..];
      (if e.parentID in cats && e.childID !in cats then [e.childID] else []) + NewChildren(cats, tree[1..])
  }

  /** Children mentioned by the tree that are not listed yet; shrinks with every pass that adds something. */
  ghost function Pending(cats: seq<int>, tree: seq<CategoryEdge>): set<int>
  {
    set e | e in tree && e.childID !in cats :: e.childID
  }

  lemma PendingShrinks(cats: seq<int>, tree: seq<CategoryEdge>)
    requires NewChildren(cats, tree) != []
    ensures |Pending(cats + NewChildren(cats, tree), tree)| < |Pending(cats, tree)|
  {
    var next := NewChildren(cats, tree);
    var before, after := Pending(cats, tree), Pending(cats + next, tree);
    forall y | y in after ensures y in before {
      var e :| e in tree && e.childID !in cats + next && e.childID == y;
      assert e.childID !in cats;
    }
    assert next[0] in next;
    var e0 :| e0 in tree && e0.parentID in cats && e0.childID !in cats && e0.childID == next[0];
    assert next[0] in before - after;
    assert before == after + (before - after);
    assert |before - after| >= 1;
  }

  /** The fixpoint the closure loop reaches: repeat passes until one adds nothing. */
  function Close(cats: seq<int>, tree: seq<CategoryEdge>): (r: seq<int>)
    ensures |cats| <= |r| && r[..|cats|] == cats
    ensures forall e :: e in tree && e.parentID in r ==> e.childID in r
    decreases |Pending(cats, tree)|
  {
    var next := NewChildren(cats, tree);
    if next == [] then
      assert forall e :: e in tree && e.parentID in cats ==> e.childID in cats by {
        forall e | e in tree && e.parentID in cats ensures e.childID in cats {
          assert e.childID !in cats ==> e.childID in next;
        }
      }
      cats
    else
      PendingShrinks(cats, tree);
      var r := Close(cats + next, tree);
      assert r[..|cats|] == (cats + next)[..|cats|];
      r
  }

  /** The element of `r` at position `i` is the child of an element listed before it. */
  predicate GroundedAt(r: seq<int>, i: nat, tree: seq<CategoryEdge>)
    requires i < |r|
  {
    exists e :: e in tree && e.childID == r[i] && e.parentID in r[..i]
  }

  /** Every element of `r` from position `n` on is the child of an element listed before it. */
  predicate GroundedFrom(r: seq<int>, n: nat, tree: seq<CategoryEdge>)
  {
    forall i: nat :: n <= i < |r| ==> GroundedAt(r, i, tree)
  }

  /** Every category the closure adds is the child of a category listed before it. */
  lemma {:induction false} CloseGrounded(cats: seq<int>, tree: seq<CategoryEdge>)
    ensures GroundedFrom(Close(cats, tree), |cats|, tree)
    decreases |Pending(cats, tree)|
  {
    var next := NewChildren(cats, tree);
    if next != [] {
      PendingShrinks(cats, tree);
      CloseGrounded(cats + next, tree);
      GroundedStep(cats, next, Close(cats, tree), tree);
    } else {
      assert Close(cats, tree) == cats;
    }
  }

  /** One pass of the closure keeps the result grounded: children of listed categories, appended after
      them, are grounded. */
  lemma GroundedStep(cats: seq<int>, next: seq<int>, r: seq<int>, tree: seq<CategoryEdge>)
    requires forall x :: x in next ==> exists e :: e in tree && e.parentID in cats && e.childID == x
    requires |cats + next| <= |r| && r[..|cats + next|] == cats + next
    requires GroundedFrom(r, |cats + next|, tree)
    ensures GroundedFrom(r, |cats|, tree)
  {
    var mid := cats + next;
    forall i: nat | |cats| <= i < |r|
      ensures GroundedAt(r, i, tree)
    {
      if i < |mid| {
        assert r[i] == mid[i] == next[i - |cats|];
        assert next[i - |cats|] in next;
        var e :| e in tree && e.parentID in cats && e.childID == r[i];
        var k :| 0 <= k < |cats| && cats[k] == e.parentID;
        assert r[..i][k] == mid[k] == e.parentID;
        assert e.parentID in r[..i];
      }
    }
  }

  /** The closure is the least list of categories containing the request and closed under the tree:
      any closed superset of the request contains all of it. */
  lemma {:induction false} CloseLeast(cats: seq<int>, tree: seq<CategoryEdge>, s: set<int>)
    requires forall x :: x in cats ==> x in s
    requires forall e :: e in tree && e.parentID in s ==> e.childID in s
    ensures forall x :: x in Close(cats, tree) ==> x in s
    decreases |Pending(cats, tree)|
  {
    var next := NewChildren(cats, tree);
    if next != [] {
      PendingShrinks(cats, tree);
      CloseLeast(cats + next, tree, s);
    }
  }

  /** On a tree (every category has at most one parent edge), a duplicate-free request closes to a duplicate-free list. */
  lemma {:induction false} CloseNoDup(cats: seq<int>, tree: seq<CategoryEdge>)
    requires NoDup(cats)
    requires forall i, j :: 0 <= i < j < |tree| ==> tree[i].childID != tree[j].childID
    ensures NoDup(Close(cats, tree))
    decreases |Pending(cats, tree)|
  {
    var next := NewChildren(cats, tree);
    if next != [] {
      NewChildrenNoDup(cats, tree);
      PendingShrinks(cats, tree);
      CloseNoDup(cats + next, tree);
    }
  }

  lemma {:induction false} NewChildrenNoDup(cats: seq<int>, tree: seq<CategoryEdge>)
    requires NoDup(cats)
    requires forall i, j :: 0 <= i < j < |tree| ==> tree[i].childID != tree[j].childID
    ensures NoDup(cats + NewChildren(cats, tree))
  {
    if tree != [] {
      NewChildrenNoDup(cats, tree[1..]);
      var rest := NewChildren(cats, tree[1..]);
      var e := tree[0];
      if e.parentID in cats && e.childID !in cats {
        forall f | f in tree[1..] ensures f.childID != e.childID {
          var j :| 0 <= j < |tree[1..]| && tree[1..][j] == f;
          assert tree[j + 1] == f;
        }
        assert e.childID !in rest;
        var r := NewChildren(cats, tree);
        assert r == [e.childID] + rest;
        forall i, j | 0 <= i < j < |cats + r| ensures (cats + r)[i] != (cats + r)[j] {
          if j < |cats| {
            assert (cats + r)[j] == (cats + rest)[j];
            assert (cats + r)[i] == (cats + rest)[i];
          } else if j == |cats| {
            assert (cats + r)[i] in cats;
          } else if i == |cats| {
            assert (cats + r)[j] == (cats + rest)[j - 1];
          } else if i < |cats| && j > |cats| {
            assert (cats + r)[j] == (cats + rest)[j - 1];
            assert (cats + r)[i] == (cats + rest)[i];
          } else if i > |cats| {
            assert (cats + r)[j] == (cats + rest)[j - 1];
            assert (cats + r)[i] == (cats + rest)[i - 1];
          }
        }
      } else {
        assert NewChildren(cats, tree) == rest;
      }
    }
  }

  /** A pass adds nothing when no edge leaves a listed category. */
  lemma {:induction false} NewChildrenNone(cats: seq<int>, tree: seq<CategoryEdge>)
    requires forall e :: e in tree ==> e.parentID !in cats
    ensures NewChildren(cats, tree) == []
  {
    if tree != [] {
      assert tree[0] in tree;
      assert forall e :: e in tree[1..] ==> e in tree;
      NewChildrenNone(cats, tree[1..]);
    }
  }

  /** A category without children closes to itself. */
  lemma CloseLeaf(a: int, tree: seq<CategoryEdge>)
    requires forall e :: e in tree ==> e.parentID != a
    ensures Close([a], tree) == [a]
  {
    NewChildrenNone([a], tree);
  }

  /** A chain 1 -> 2 -> 3 closes to all three, whatever the order of the edges. */
  lemma CloseChain()
    ensures Close([1], [CategoryEdge(2, 3), CategoryEdge(1, 2)]) == [1, 2, 3]
  {
    var chain := [CategoryEdge(2, 3), CategoryEdge(1, 2)];
    ChainPasses(chain);
    assert [1] + [2] == [1, 2] && [1, 2] + [3] == [1, 2, 3];
    assert Close([1, 2, 3], chain) == [1, 2, 3];
    assert Close([1, 2], chain) == Close([1, 2, 3], chain);
  }

  /** The three passes of the closure loop on the chain. */
  lemma ChainPasses(chain: seq<CategoryEdge>)
    requires chain == [CategoryEdge(2, 3), CategoryEdge(1, 2)]
    ensures NewChildren([1], chain) == [2]
    ensures NewChildren([1, 2], chain) == [3]
    ensures NewChildren([1, 2, 3], chain) == []
  {
    var tail := chain[1..];
    assert tail == [CategoryEdge(1, 2)] && tail[1..] == [];
    assert NewChildren([1], tail) == [2];
    assert NewChildren([1, 2], tail) == [];
    assert NewChildren([1, 2, 3], tail) == [];
  }

  /** A cycle 1 -> 2 -> 1 closes after one pass. */
  lemma CloseCycle()
    ensures Close([1], [CategoryEdge(1, 2), CategoryEdge(2, 1)]) == [1, 2]
  {
    var cycle := [CategoryEdge(1, 2), CategoryEdge(2, 1)];
    assert NewChildren([1, 2], cycle) == [];
    assert Close([1, 2], cycle) == [1, 2];
    assert NewChildren([1], cycle) == [2];
    assert [1] + [2] == [1, 2];
  }

  /** FieldIDs of the dictionary lines whose category is listed, in dictionary order. */
  function FieldsInCategories(dict: seq<DictEntry>, cats: seq<int>): (r: seq<int>)
    ensures forall x :: x in r <==> exists d :: d in dict && d.category in cats && d.fieldID == x
  {
    if dict == [] then []
    else
      assert forall d :: d in dict <==> d == dict[0] || d in dict[1..];
      (if dict[0].category in cats then [dict[0].fieldID] else []) + FieldsInCategories(dict[1..], cats)
  }
}
