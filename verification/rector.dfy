/**
  `refactor` of SortGettersSettersByPropertyOrderRector
  (src/SortGettersSettersByPropertyOrderRector.php, lines 71-186): the file filter, the
  property gate, the stable sort with the comparator, and the identity check that
  reports "no change".
 */
module Rector {
  import opened Wrappers
  import opened Names
  import opened MethodNames
  import opened Ranks
  import opened InsertionSort
  import opened Members
  import opened Comparator

  /** The callback handed to `usort`, closed over the property list. */
  function Comparer(props: seq<string>): (Stmt, Stmt) -> int {
    (a, b) => Cmp(props, a, b)
  }

  /** Lines 98-173: the class statements in their new order. */
  function SortStatements(props: seq<string>, stmts: seq<Stmt>): (r: seq<Stmt>)
    ensures multiset(r) == multiset(stmts)
    ensures |r| == |stmts|
  {
    SortLength(Comparer(props), stmts);
    Sort(Comparer(props), stmts)
  }

  /**
    `refactor` on a class node: `None` is PHP's `null` ("leave the class alone"),
    `Some(stmts)` the class with its statements reordered. The optional `match`
    callback is applied to the path of the file being processed.
   */
  function Refactor(matchCallback: Option<string -> bool>, filePath: string, stmts: seq<Stmt>): (r: Option<seq<Stmt>>)
    ensures matchCallback.Some? && !matchCallback.value(filePath) ==> r.None?
    ensures PropertyNames(stmts) == [] ==> r.None?
    ensures r.Some? ==> multiset(r.value) == multiset(stmts) && Ids(r.value) != Ids(stmts)
  {
    if matchCallback.Some? && !matchCallback.value(filePath) then None
    else
      var properties := PropertyNames(stmts);
      if properties == [] then None
      else
        var sorted := SortStatements(properties, stmts);
        if Ids(sorted) == Ids(stmts) then None else Some(sorted)
  }

  /** The file filter and the property list let the class through. */
  predicate Applies(matchCallback: Option<string -> bool>, filePath: string, stmts: seq<Stmt>) {
    (matchCallback.None? || matchCallback.value(filePath)) && PropertyNames(stmts) != []
  }

  /** Once the gates pass, the rule reports no change exactly when sorting leaves every statement where it was. */
  lemma UnchangedIffAlreadyInOrder(matchCallback: Option<string -> bool>, filePath: string, stmts: seq<Stmt>)
    requires Applies(matchCallback, filePath, stmts)
    requires DistinctIds(stmts)
    ensures Refactor(matchCallback, filePath, stmts).None?
        <==> SortStatements(PropertyNames(stmts), stmts) == stmts
    ensures Refactor(matchCallback, filePath, stmts).Some?
        ==> Refactor(matchCallback, filePath, stmts).value == SortStatements(PropertyNames(stmts), stmts)
  {
    var sorted := SortStatements(PropertyNames(stmts), stmts);
    if Ids(sorted) == Ids(stmts) {
      SameIdsMeansSameOrder(stmts, sorted);
    }
  }

  /** The comparator follows the coarse order: a statement on a lower level compares below one on a higher level. */
  lemma {:induction false} LevelRespected(props: seq<string>)
    ensures Respects(Comparer(props), Level, _ => true)
  {
    forall a, b | Below(Level(a), Level(b))
      ensures Comparer(props)(a, b) < 0 && Comparer(props)(b, a) > 0
    {
      CmpFollowsLevel(props, a, b);
    }
  }

  /** Sorting always leaves the statements in level order. */
  lemma {:induction false} SortedByLevel(props: seq<string>, stmts: seq<Stmt>)
    ensures KeySorted(Level, SortStatements(props, stmts))
  {
    LevelRespected(props);
    SortIsKeySorted(Comparer(props), Level, _ => true, stmts);
  }

  /** The statements at a given level that is not the accessor level. */
  function AtLevel(v: Rank): Stmt -> bool {
    s => Level(s) == v && v.tier != 2
  }

  /** Statements of one level other than the accessor level keep their relative order. */
  lemma {:induction false} LevelOrderKept(props: seq<string>, stmts: seq<Stmt>, v: Rank)
    requires v.tier != 2
    ensures Filter(AtLevel(v), SortStatements(props, stmts)) == Filter(AtLevel(v), stmts)
  {
    forall a, b | AtLevel(v)(a) && AtLevel(v)(b)
      ensures Comparer(props)(a, b) <= 0
    {
      CmpTiesWithinLevel(props, a, b);
    }
    SortKeepsOrderOfTies(Comparer(props), AtLevel(v), stmts);
  }

  lemma NonMethodsTie(props: seq<string>)
    ensures forall a, b :: NotMethod(a) && NotMethod(b) ==> Comparer(props)(a, b) <= 0
  {
  }

  /** Every non-method comes before every method. */
  lemma {:induction false} NonMethodsLead(props: seq<string>, stmts: seq<Stmt>)
    ensures var r := SortStatements(props, stmts);
            forall i, j :: 0 <= i < |r| && 0 <= j < |r| && NotMethod(r[i]) && IsMethod(r[j]) ==> i < j
  {
    var r := SortStatements(props, stmts);
    SortedByLevel(props, stmts);
    forall i, j | 0 <= i < |r| && 0 <= j < |r| && NotMethod(r[i]) && IsMethod(r[j])
      ensures i < j
    {
      KeySortedPlaces(Level, r, i, j);
    }
  }

  /**
    Non-methods keep their relative order; since property declarations are among
    them, the collected property list is unchanged by sorting.
   */
  lemma {:induction false} NonMethodsKeepOrder(props: seq<string>, stmts: seq<Stmt>)
    ensures Filter(NotMethod, SortStatements(props, stmts)) == Filter(NotMethod, stmts)
    ensures PropertyNames(SortStatements(props, stmts)) == PropertyNames(stmts)
  {
    NonMethodsTie(props);
    SortKeepsOrderOfTies(Comparer(props), NotMethod, stmts);
    PropertyNamesOfNonMethods(stmts);
    PropertyNamesOfNonMethods(SortStatements(props, stmts));
  }

  predicate IsMagicMethod(s: Stmt) {
    IsMethod(s) && IsMagic(s.decl.name)
  }

  /** Magic methods precede every other method. */
  lemma {:induction false} MagicMethodsLead(props: seq<string>, stmts: seq<Stmt>)
    ensures var r := SortStatements(props, stmts);
            forall i, j :: 0 <= i < |r| && 0 <= j < |r| && IsMagicMethod(r[i]) && IsMethod(r[j]) && !IsMagicMethod(r[j]) ==> i < j
  {
    var r := SortStatements(props, stmts);
    SortedByLevel(props, stmts);
    forall i, j | 0 <= i < |r| && 0 <= j < |r| && IsMagicMethod(r[i]) && IsMethod(r[j]) && !IsMagicMethod(r[j])
      ensures i < j
    {
      KeySortedPlaces(Level, r, i, j);
    }
  }

  /** Magic methods come out in ascending rank. */
  lemma {:induction false} MagicMethodsByRank(props: seq<string>, stmts: seq<Stmt>)
    ensures var r := SortStatements(props, stmts);
            forall i, j :: 0 <= i < j < |r| && IsMagicMethod(r[i]) && IsMagicMethod(r[j]) ==> MagicRank(r[i].decl.name) <= MagicRank(r[j].decl.name)
  {
    SortedByLevel(props, stmts);
  }

  /** No method other than a constructor comes before a constructor. */
  lemma {:induction false} ConstructorLeadsMethods(props: seq<string>, stmts: seq<Stmt>)
    ensures var r := SortStatements(props, stmts);
            forall i, j :: 0 <= i < j < |r| && r[j].decl == Method("__construct") && IsMethod(r[i]) ==> r[i].decl == Method("__construct")
  {
    var r := SortStatements(props, stmts);
    SortedByLevel(props, stmts);
    forall i, j | 0 <= i < j < |r| && r[j].decl == Method("__construct") && IsMethod(r[i])
      ensures r[i].decl == Method("__construct")
    {
      ConstructorRanksFirst(r[i].decl.name);
    }
  }

  predicate IsPlainMethod(s: Stmt) {
    RoleOf(s).Plain?
  }

  /** Plain methods (neither magic nor accessor-shaped) come after every other statement and keep their relative order. */
  lemma {:induction false} PlainMethodsTrailInOrder(props: seq<string>, stmts: seq<Stmt>)
    ensures var r := SortStatements(props, stmts);
            forall i, j :: 0 <= i < |r| && 0 <= j < |r| && IsPlainMethod(r[i]) && !IsPlainMethod(r[j]) ==> j < i
    ensures Filter(IsPlainMethod, SortStatements(props, stmts)) == Filter(IsPlainMethod, stmts)
  {
    var r := SortStatements(props, stmts);
    SortedByLevel(props, stmts);
    forall i, j | 0 <= i < |r| && 0 <= j < |r| && IsPlainMethod(r[i]) && !IsPlainMethod(r[j])
      ensures j < i
    {
      KeySortedPlaces(Level, r, j, i);
    }
    forall a, b | IsPlainMethod(a) && IsPlainMethod(b)
      ensures Comparer(props)(a, b) <= 0
    {
      CmpTiesWithinLevel(props, a, b);
    }
    SortKeepsOrderOfTies(Comparer(props), IsPlainMethod, stmts);
  }

  /** The accessors whose target is not in the property list. */
  function UnknownAccessor(props: seq<string>): Stmt -> bool {
    s => RoleOf(s).Accessor? && !Known(props, s)
  }

  /** Accessors of undeclared properties keep their relative order. */
  lemma {:induction false} UnknownAccessorsKeepOrder(props: seq<string>, stmts: seq<Stmt>)
    ensures Filter(UnknownAccessor(props), SortStatements(props, stmts)) == Filter(UnknownAccessor(props), stmts)
  {
    forall a, b | UnknownAccessor(props)(a) && UnknownAccessor(props)(b)
      ensures Comparer(props)(a, b) <= 0
    {
      UnknownAccessorTies(props, a, b);
    }
    SortKeepsOrderOfTies(Comparer(props), UnknownAccessor(props), stmts);
  }

  /** Every statement is known with respect to the property list. */
  ghost predicate AllKnown(props: seq<string>, stmts: seq<Stmt>) {
    forall s :: s in stmts ==> Known(props, s)
  }

  function KeyIn(props: seq<string>): Stmt -> Rank {
    s => Key(props, s)
  }

  function KnownIn(props: seq<string>): Stmt -> bool {
    s => Known(props, s)
  }

  lemma {:induction false} KeyRespected(props: seq<string>)
    ensures Respects(Comparer(props), KeyIn(props), KnownIn(props))
    ensures forall a, b :: Known(props, a) && Known(props, b) && Key(props, a) == Key(props, b) ==> Comparer(props)(a, b) <= 0
  {
    forall a, b | Known(props, a) && Known(props, b)
      ensures Comparer(props)(a, b) == CompareRanks(Key(props, a), Key(props, b))
      ensures Comparer(props)(b, a) == CompareRanks(Key(props, b), Key(props, a))
    {
      CmpMatchesKey(props, a, b);
      CmpMatchesKey(props, b, a);
    }
  }

  /**
    When every accessor targets a declared property, the result is in key order:
    non-methods, magic methods by rank, accessors by the position of their property
    and then by type (get, set, add, remove), then plain methods.
   */
  lemma {:induction false} SortedByKeyWhenKnown(props: seq<string>, stmts: seq<Stmt>)
    requires AllKnown(props, stmts)
    ensures KeySorted(KeyIn(props), SortStatements(props, stmts))
  {
    KeyRespected(props);
    SortIsKeySorted(Comparer(props), KeyIn(props), KnownIn(props), stmts);
  }

  /** The known statements that share one key. */
  function WithKey(props: seq<string>, v: Rank): Stmt -> bool {
    s => Known(props, s) && Key(props, s) == v
  }

  /** Statements with equal keys (such as two getters of one property) keep their relative order. */
  lemma {:induction false} EqualKeysKeepOrder(props: seq<string>, stmts: seq<Stmt>, v: Rank)
    ensures Filter(WithKey(props, v), SortStatements(props, stmts)) == Filter(WithKey(props, v), stmts)
  {
    KeyRespected(props);
    SortKeepsOrderOfTies(Comparer(props), WithKey(props, v), stmts);
  }

  /** Among known statements, the statements with key `v` are exactly those `WithKey` selects. */
  lemma WithKeyAmongKnown(props: seq<string>, stmts: seq<Stmt>, v: Rank)
    requires AllKnown(props, stmts)
    ensures Filter(WithKey(props, v), stmts) == Filter(HasKey(KeyIn(props), v), stmts)
  {
    forall i | 0 <= i < |stmts|
      ensures WithKey(props, v)(stmts[i]) == HasKey(KeyIn(props), v)(stmts[i])
    {
      assert stmts[i] in stmts;
    }
    FilterAgrees(WithKey(props, v), HasKey(KeyIn(props), v), stmts);
  }

  /**
    When every accessor targets a declared property, the result is the one stable
    ordering by key: any key-sorted permutation of the class that keeps each key's
    statements in their original order is the sorted class.
   */
  lemma SortIsTheStableKeyOrder(props: seq<string>, stmts: seq<Stmt>, e: seq<Stmt>)
    requires AllKnown(props, stmts)
    requires KeySorted(KeyIn(props), e) && multiset(e) == multiset(stmts)
    requires forall v :: Filter(WithKey(props, v), e) == Filter(WithKey(props, v), stmts)
    ensures e == SortStatements(props, stmts)
  {
    var r := SortStatements(props, stmts);
    SortedByKeyWhenKnown(props, stmts);
    SortedStaysKnown(props, stmts);
    assert AllKnown(props, e) by {
      forall s | s in e
        ensures Known(props, s)
      {
        assert s in multiset(stmts);
      }
    }
    forall v
      ensures Filter(HasKey(KeyIn(props), v), r) == Filter(HasKey(KeyIn(props), v), e)
    {
      EqualKeysKeepOrder(props, stmts, v);
      WithKeyAmongKnown(props, r, v);
      WithKeyAmongKnown(props, e, v);
    }
    StableKeySortedUnique(KeyIn(props), r, e);
  }

  /** Both are accessors of declared properties, and the first belongs before the second: an earlier-declared property, or the same property with a lower type priority. */
  predicate AccessorPrecedes(props: seq<string>, a: Stmt, b: Stmt) {
    && RoleOf(a).Accessor? && RoleOf(b).Accessor?
    && RoleOf(a).target in props && RoleOf(b).target in props
    && var ia, ib := IndexOf(props, RoleOf(a).target).value, IndexOf(props, RoleOf(b).target).value;
       || ia < ib
       || (ia == ib && TypePriority(RoleOf(a).kind) < TypePriority(RoleOf(b).kind))
  }

  lemma AccessorPlacement(props: seq<string>, r: seq<Stmt>, i: int, j: int)
    requires KeySorted(KeyIn(props), r)
    requires 0 <= i < |r| && 0 <= j < |r|
    requires AccessorPrecedes(props, r[i], r[j])
    ensures i < j
  {
    assert Below(KeyIn(props)(r[i]), KeyIn(props)(r[j]));
    KeySortedPlaces(KeyIn(props), r, i, j);
  }

  /** Sorting a class whose accessors all target declared properties leaves them all known. */
  lemma SortedStaysKnown(props: seq<string>, stmts: seq<Stmt>)
    requires AllKnown(props, stmts)
    ensures AllKnown(props, SortStatements(props, stmts))
  {
    forall s | s in SortStatements(props, stmts)
      ensures Known(props, s)
    {
      assert s in multiset(stmts);
    }
  }

  /**
    Accessor grouping: when every accessor targets a declared property, the
    accessors of an earlier-declared property precede those of a later one, and
    accessors of one property run get, set, add, remove.
   */
  lemma {:induction false} AccessorsGroupedByProperty(props: seq<string>, stmts: seq<Stmt>)
    requires AllKnown(props, stmts)
    ensures var r := SortStatements(props, stmts);
            forall i, j :: 0 <= i < |r| && 0 <= j < |r| && AccessorPrecedes(props, r[i], r[j]) ==> i < j
  {
    var r := SortStatements(props, stmts);
    SortedByKeyWhenKnown(props, stmts);
    SortedStaysKnown(props, stmts);
    forall i, j | 0 <= i < |r| && 0 <= j < |r| && AccessorPrecedes(props, r[i], r[j])
      ensures i < j
    {
      AccessorPlacement(props, r, i, j);
    }
  }

  /** The callback is antisymmetric, whatever the declared properties. */
  lemma ComparerAntisymmetric(props: seq<string>)
    ensures Antisymmetric(Comparer(props))
  {
    forall a, b
      ensures Comparer(props)(a, b) > 0 ==> Comparer(props)(b, a) < 0
    {
      CmpAntisymmetric(props, a, b);
    }
  }

  /**
    Sorting the sorted class changes nothing. This holds for every class, including
    one with accessors of undeclared properties: the sort leaves no neighbours that
    compare greater, and such a sequence is a fixed point.
   */
  lemma SortedIsFixed(props: seq<string>, stmts: seq<Stmt>)
    ensures SortStatements(props, SortStatements(props, stmts)) == SortStatements(props, stmts)
  {
    var r := SortStatements(props, stmts);
    ComparerAntisymmetric(props);
    SortIsInOrder(Comparer(props), stmts);
    SortOfInOrder(Comparer(props), r);
  }

  /** Idempotence: running the rule again on the class it produced reports no change. */
  lemma RefactorIdempotent(matchCallback: Option<string -> bool>, filePath: string, stmts: seq<Stmt>)
    requires Refactor(matchCallback, filePath, stmts).Some?
    ensures Refactor(matchCallback, filePath, Refactor(matchCallback, filePath, stmts).value).None?
  {
    NonMethodsKeepOrder(PropertyNames(stmts), stmts);
    SortedIsFixed(PropertyNames(stmts), stmts);
  }

  /** When the gates pass and the sort changes the order, `refactor` returns the sorted class. */
  lemma RefactorReorders(matchCallback: Option<string -> bool>, filePath: string, stmts: seq<Stmt>, props: seq<string>, sorted: seq<Stmt>)
    requires matchCallback.None? || matchCallback.value(filePath)
    requires PropertyNames(stmts) == props && props != []
    requires SortStatements(props, stmts) == sorted && Ids(sorted) != Ids(stmts)
    ensures Refactor(matchCallback, filePath, stmts) == Some(sorted)
  {
  }
}
