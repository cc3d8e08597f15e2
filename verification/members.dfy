/**
  The statements of one class body as the rule sees them: property declarations
  (possibly several names each), method declarations, and everything else. Each
  statement carries the identity of its syntax node, which is what the rule compares
  to decide whether anything moved.
 */
module Members {
  import opened InsertionSort

  datatype Decl = Property(names: seq<string>) | Method(name: string) | Other

  /** A class statement with the identity (`spl_object_id`) of its node. */
  datatype Stmt = Stmt(id: nat, decl: Decl)

  /** `$stmt instanceof ClassMethod`. */
  predicate IsMethod(s: Stmt) {
    s.decl.Method?
  }

  predicate NotMethod(s: Stmt) {
    !s.decl.Method?
  }

  /** Lines 86-91: the names of every property declaration, in declaration order, each declaration's names left to right. */
  function PropertyNames(stmts: seq<Stmt>): seq<string> {
    if |stmts| == 0 then []
    else
      var last := stmts[|stmts| - 1];
      PropertyNames(stmts[..|stmts| - 1]) + (if last.decl.Property? then last.decl.names else [])
  }

  lemma {:induction false} PropertyNamesConcat(a: seq<Stmt>, b: seq<Stmt>)
    ensures PropertyNames(a + b) == PropertyNames(a) + PropertyNames(b)
    decreases |b|
  {
    if |b| == 0 {
      assert a + b == a;
    } else {
      assert (a + b)[..|a + b| - 1] == a + b[..|b| - 1];
      PropertyNamesConcat(a, b[..|b| - 1]);
    }
  }

  /** A name is collected exactly when some property declaration of the class declares it. */
  lemma {:induction false} PropertyNamesIff(stmts: seq<Stmt>, n: string)
    ensures n in PropertyNames(stmts)
        <==> exists i :: 0 <= i < |stmts| && stmts[i].decl.Property? && n in stmts[i].decl.names
    decreases |stmts|
  {
    if |stmts| > 0 {
      var init := stmts[..|stmts| - 1];
      PropertyNamesIff(init, n);
      if exists i :: 0 <= i < |init| && init[i].decl.Property? && n in init[i].decl.names {
        var i :| 0 <= i < |init| && init[i].decl.Property? && n in init[i].decl.names;
        assert stmts[i] == init[i];
      }
      if exists i :: 0 <= i < |stmts| && stmts[i].decl.Property? && n in stmts[i].decl.names {
        var i :| 0 <= i < |stmts| && stmts[i].decl.Property? && n in stmts[i].decl.names;
        if i < |init| {
          assert init[i] == stmts[i];
        }
      }
    }
  }

  /** The list is empty exactly when no property declaration declares a name. */
  lemma PropertyNamesEmpty(stmts: seq<Stmt>)
    ensures PropertyNames(stmts) == []
        <==> forall i :: 0 <= i < |stmts| && stmts[i].decl.Property? ==> stmts[i].decl.names == []
  {
    if PropertyNames(stmts) != [] {
      PropertyNamesIff(stmts, PropertyNames(stmts)[0]);
    }
    if exists i :: 0 <= i < |stmts| && stmts[i].decl.Property? && stmts[i].decl.names != [] {
      var i :| 0 <= i < |stmts| && stmts[i].decl.Property? && stmts[i].decl.names != [];
      PropertyNamesIff(stmts, stmts[i].decl.names[0]);
    }
  }

  /** Methods contribute nothing: the names depend only on the non-method statements, in their order. */
  lemma {:induction false} PropertyNamesOfNonMethods(stmts: seq<Stmt>)
    ensures PropertyNames(Filter(NotMethod, stmts)) == PropertyNames(stmts)
    decreases |stmts|
  {
    if |stmts| > 0 {
      var init, last := stmts[..|stmts| - 1], stmts[|stmts| - 1];
      PropertyNamesOfNonMethods(init);
      var kept := if NotMethod(last) then [last] else [];
      PropertyNamesConcat(Filter(NotMethod, init), kept);
      assert kept == [] || kept[..0] == [];
    }
  }

  /** The node identities, position by position. */
  function Ids(stmts: seq<Stmt>): (r: seq<nat>)
    ensures |r| == |stmts|
    ensures forall i :: 0 <= i < |stmts| ==> r[i] == stmts[i].id
  {
    if |stmts| == 0 then [] else Ids(stmts[..|stmts| - 1]) + [stmts[|stmts| - 1].id]
  }

  /** Distinct statements are distinct nodes. */
  ghost predicate DistinctIds(stmts: seq<Stmt>) {
    forall i, j :: 0 <= i < j < |stmts| ==> stmts[i].id != stmts[j].id
  }

  /** A rearrangement of distinct nodes that shows the same identities position by position is no rearrangement at all. */
  lemma SameIdsMeansSameOrder(original: seq<Stmt>, rearranged: seq<Stmt>)
    requires DistinctIds(original)
    requires multiset(rearranged) == multiset(original)
    requires Ids(rearranged) == Ids(original)
    ensures rearranged == original
  {
    forall i | 0 <= i < |original|
      ensures rearranged[i] == original[i]
    {
      assert rearranged[i] in multiset(original);
      var j :| 0 <= j < |original| && original[j] == rearranged[i];
      assert original[j].id == original[i].id;
    }
  }
}
