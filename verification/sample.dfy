/**
  The class of the rule's documentation (src/SortGettersSettersByPropertyOrderRector.php,
  lines 27-42): `bProperty` declared before `aProperty`, then ten methods. Here any two
  distinct capital letters stand in for `A` and `B`. What `refactor` returns for it is
  derived from the theorems of `Rector`, not by running the sort: the result is
  key-sorted, and only one arrangement of these statements is.
 */
module Sample {
  import opened Wrappers
  import opened Names
  import opened MethodNames
  import opened Ranks
  import opened InsertionSort
  import opened Members
  import opened Comparator
  import opened Rector

  /** The property `xProperty` behind the letter `X`. */
  function PropertyOf(c: char): string {
    [ToLower(c)] + "Property"
  }

  /** The accessor `<prefix>XProperty`. */
  function AccessorName(prefix: string, c: char): string {
    prefix + [c] + "Property"
  }

  /** The four prefixes the sample uses, each with the accessor type it names. */
  predicate PrefixNames(prefix: string, t: AccessorType) {
    || (prefix == "get" && t == Get)
    || (prefix == "set" && t == Set)
    || (prefix == "add" && t == Add)
    || (prefix == "remove" && t == Remove)
  }

  function Field(id: nat, c: char): Stmt {
    Stmt(id, Property([PropertyOf(c)]))
  }

  function AccessorStmt(id: nat, prefix: string, c: char): Stmt {
    Stmt(id, Method(AccessorName(prefix, c)))
  }

  function MagicStmt(id: nat, name: string): Stmt {
    Stmt(id, Method(name))
  }

  /** The prefix of the accessor at position `k` of the input class. */
  function SamplePrefix(k: int): string {
    if k == 2 || k == 8 then "get"
    else if k == 4 || k == 9 then "set"
    else if k == 5 || k == 10 then "add"
    else "remove"
  }

  /** The accessor type that prefix names. */
  function SampleType(k: int): AccessorType {
    if k == 2 || k == 8 then Get
    else if k == 4 || k == 9 then Set
    else if k == 5 || k == 10 then Add
    else Remove
  }

  /**
    The statement at position `k` of the input class of lines 27-42: the fields of `B`
    and `A`, then `getB`, `__toString`, `setB`, `addB`, `__construct`, `removeB` and the
    four accessors of `A`. Its id is its position.
   */
  function InputStmt(a: char, b: char, k: int): Stmt {
    if k <= 0 then Field(0, b)
    else if k == 1 then Field(1, a)
    else if k == 3 then MagicStmt(3, "__toString")
    else if k == 6 then MagicStmt(6, "__construct")
    else AccessorStmt(k, SamplePrefix(k), if k < 8 then b else a)
  }

  /** The input class of lines 27-42, statement ids in source order. */
  function SampleInput(a: char, b: char): (r: seq<Stmt>)
    ensures |r| == 12
  {
    seq(12, k => InputStmt(a, b, k))
  }

  /** The order the comparator produces: `bProperty`'s accessors before `aProperty`'s. */
  function SampleOutput(a: char, b: char): seq<Stmt> {
    [ Field(0, b), Field(1, a),
      MagicStmt(6, "__construct"), MagicStmt(3, "__toString"),
      AccessorStmt(2, "get", b), AccessorStmt(4, "set", b), AccessorStmt(5, "add", b), AccessorStmt(7, "remove", b),
      AccessorStmt(8, "get", a), AccessorStmt(9, "set", a), AccessorStmt(10, "add", a), AccessorStmt(11, "remove", a) ]
  }

  /** The order the documentation shows (lines 45-60): `aProperty`'s accessors first. */
  function DocumentedOutput(a: char, b: char): seq<Stmt> {
    [ Field(0, b), Field(1, a),
      MagicStmt(6, "__construct"), MagicStmt(3, "__toString"),
      AccessorStmt(8, "get", a), AccessorStmt(9, "set", a), AccessorStmt(10, "add", a), AccessorStmt(11, "remove", a),
      AccessorStmt(2, "get", b), AccessorStmt(4, "set", b), AccessorStmt(5, "add", b), AccessorStmt(7, "remove", b) ]
  }

  /** `<prefix>XProperty` targets `xProperty` with the type its prefix names. */
  lemma RoleOfAccessorName(s: Stmt, prefix: string, t: AccessorType, c: char)
    requires PrefixNames(prefix, t) && IsUpper(c) && s.decl == Method(AccessorName(prefix, c))
    ensures RoleOf(s) == Accessor(PropertyOf(c), Some(t))
  {
    var rest := [c] + "Property";
    var name := prefix + rest;
    assert AccessorName(prefix, c) == name;
    assert '\n' !in rest;
    ExtractPropertyOfIdentifier(prefix, rest);
    assert !IsMagic(name) by {
      StartsWithAgrees(name, "__", 0);
    }
    StartsWithConcat(prefix, rest);
    MatchedPrefixIff(name, prefix);
  }

  lemma PropertiesDiffer(a: char, b: char)
    requires IsUpper(a) && IsUpper(b) && a != b
    ensures PropertyOf(a) != PropertyOf(b)
  {
    assert PropertyOf(a)[0] == ToLower(a) && PropertyOf(b)[0] == ToLower(b);
  }

  /** The sample's statements in the order the comparator gives them, by input position. */
  function Arrange<T>(s: seq<T>): (r: seq<T>)
    requires |s| == 12
    ensures |r| == 12
  {
    [s[0], s[1], s[6], s[3], s[2], s[4], s[5], s[7], s[8], s[9], s[10], s[11]]
  }

  /**
    What the comparator sees in the sample at position `k`: two non-methods, the
    getter, setter, adder and remover of the first property with `__toString` (rank 3)
    and `__construct` (rank 1) among them, then the four accessors of the second property.
   */
  function InputRole(props: seq<string>, k: int): Role
    requires |props| == 2
  {
    if k < 2 then NonMethod
    else if k == 3 then Magic(3)
    else if k == 6 then Magic(1)
    else Accessor(props[if k < 8 then 0 else 1], Some(SampleType(k)))
  }

  /** The key of that role under a property list of two distinct names. */
  function InputRank(k: int): Rank {
    if k < 2 then Rank(0, 0, 0)
    else if k == 3 then Rank(1, 3, 0)
    else if k == 6 then Rank(1, 1, 0)
    else Rank(2, if k < 8 then 0 else 1, TypePriority(Some(SampleType(k))))
  }

  ghost predicate SampleShape(props: seq<string>, s: seq<Stmt>) {
    && |props| == 2 && props[0] != props[1] && |s| == 12
    && forall k :: 0 <= k < 12 ==> RoleOf(s[k]) == InputRole(props, k)
  }

  /** A statement whose role is the sample's role at position `k` has the sample's key there, and is known. */
  lemma KeyOfInputRole(props: seq<string>, x: Stmt, k: nat)
    requires |props| == 2 && props[0] != props[1] && k < 12
    requires RoleOf(x) == InputRole(props, k)
    ensures Known(props, x) && Key(props, x) == InputRank(k)
  {
    if RoleOf(x).Accessor? {
      AccessorKey(props, x, if k < 8 then 0 else 1);
    }
  }

  /** An accessor of the `i`-th of two distinct properties is keyed by `i` and its type. */
  lemma AccessorKey(props: seq<string>, x: Stmt, i: nat)
    requires |props| == 2 && props[0] != props[1] && i < 2
    requires RoleOf(x).Accessor? && RoleOf(x).target == props[i]
    ensures Known(props, x) && Key(props, x) == Rank(2, i, TypePriority(RoleOf(x).kind))
  {
    if i == 0 {
      assert IndexOf(props, props[0]) == Some(0);
    } else {
      assert IndexOf(props, props[1]) == Some(1);
    }
  }

  lemma ShapeKeys(props: seq<string>, s: seq<Stmt>)
    requires SampleShape(props, s)
    ensures forall k :: 0 <= k < 12 ==> KeyIn(props)(s[k]) == InputRank(k)
    ensures AllKnown(props, s)
  {
    forall k | 0 <= k < 12
      ensures Known(props, s[k]) && KeyIn(props)(s[k]) == InputRank(k)
    {
      KeyOfInputRole(props, s[k], k);
    }
    forall x | x in s
      ensures Known(props, x)
    {
      var k :| 0 <= k < |s| && s[k] == x;
    }
  }

  /** Keys laid out as `InputRank` are in order once arranged, and only the two leading elements tie. */
  lemma ArrangeIsKeySorted<T>(K: T -> Rank, P: T -> bool, s: seq<T>)
    requires |s| == 12
    requires forall k :: 0 <= k < 12 ==> K(s[k]) == InputRank(k)
    requires P(s[0]) && P(s[1])
    ensures KeySorted(K, Arrange(s)) && TiesOnlyAmong(K, P, Arrange(s))
  {
    var e := Arrange(s);
    forall i | 1 < i < 12
      ensures Below(K(e[i - 1]), K(e[i]))
    {
      assert i == 2 || i == 3 || i == 4 || i == 5 || i == 6 || i == 7 || i == 8 || i == 9 || i == 10 || i == 11;
    }
    forall i | 0 < i < 12
      ensures !Below(K(e[i]), K(e[i - 1]))
    {
      BelowIsStrictTotalOrder(K(e[i - 1]), K(e[i]), K(e[i]));
    }
    KeySortedOfNeighbours(K, e);
    TiesOnlyAmongLeading(K, P, e, 1);
  }

  lemma Shuffle<T>(u: seq<T>, v: seq<T>, w: seq<T>, x: seq<T>)
    ensures multiset(x + v + u + w) == multiset(u + v + w + x)
  {
    calc {
      multiset(x + v + u + w);
      multiset(x) + multiset(v) + multiset(u) + multiset(w);
      multiset(u) + multiset(v) + multiset(w) + multiset(x);
      multiset(u + v + w + x);
    }
  }

  lemma ArrangePermutes<T>(s: seq<T>)
    requires |s| == 12
    ensures multiset(Arrange(s)) == multiset(s)
  {
    var u, v, w, x := s[2..3], s[3..4], s[4..6], s[6..7];
    Shuffle(u, v, w, x);
    assert s == s[..2] + (u + v + w + x) + s[7..];
    assert Arrange(s) == s[..2] + (x + v + u + w) + s[7..];
  }

  /** Arranging keeps the two leading `P` elements in front and in order, and no other element satisfies `P`. */
  lemma ArrangeKeepsLeading<T>(P: T -> bool, s: seq<T>)
    requires |s| == 12 && P(s[0]) && P(s[1])
    requires forall k :: 2 <= k < 12 ==> !P(s[k])
    ensures Filter(P, Arrange(s)) == Filter(P, s)
  {
    var e := Arrange(s);
    assert s == s[..2] + s[2..] && e == s[..2] + e[2..];
    forall i | 0 <= i < |s[2..]|
      ensures !P(s[2..][i])
    {
      assert s[2..][i] == s[i + 2];
    }
    forall i | 0 <= i < |e[2..]|
      ensures !P(e[2..][i])
    {
      assert i == 0 || i == 1 || i == 2 || i == 3 || i == 4 || i == 5 || i == 6 || i == 7 || i == 8 || i == 9;
    }
    FilterConcat(P, s[..2], s[2..]);
    FilterConcat(P, s[..2], e[2..]);
    FilterNone(P, s[2..]);
    FilterNone(P, e[2..]);
  }

  /** The role `NonMethod` is exactly the statements that are not methods. */
  lemma NonMethodRole(x: Stmt)
    ensures RoleOf(x) == NonMethod <==> NotMethod(x)
  {
  }

  /** Any class whose statements play the sample's roles is sorted into `Arrange` order. */
  lemma SortArranges(props: seq<string>, s: seq<Stmt>)
    requires SampleShape(props, s)
    ensures SortStatements(props, s) == Arrange(s)
  {
    var r := SortStatements(props, s);
    ShapeKeys(props, s);
    SortedByKeyWhenKnown(props, s);
    NonMethodsKeepOrder(props, s);
    forall k | 0 <= k < 12
      ensures NotMethod(s[k]) <==> k < 2
    {
      NonMethodRole(s[k]);
      assert k == 0 || k == 1 || k == 2 || k == 3 || k == 4 || k == 5 || k == 6 || k == 7 || k == 8 || k == 9 || k == 10 || k == 11;
    }
    ArrangeIsKeySorted(KeyIn(props), NotMethod, s);
    ArrangePermutes(s);
    ArrangeKeepsLeading(NotMethod, s);
    KeySortedUnique(KeyIn(props), NotMethod, r, Arrange(s));
  }

  lemma MagicRoles(x: Stmt, y: Stmt)
    requires x == MagicStmt(6, "__construct") && y == MagicStmt(3, "__toString")
    ensures RoleOf(x) == Magic(1) && RoleOf(y) == Magic(3)
  {
    ConstructorRanksFirst("__toString");
    assert IsMagic("__toString") by {
      assert "__toString"[..2] == "__";
    }
  }

  /** The prefix at each accessor position names the type the sample gives that position. */
  lemma PrefixNamesAt(k: int)
    requires 2 <= k < 12 && k != 3 && k != 6
    ensures PrefixNames(SamplePrefix(k), SampleType(k))
  {
  }

  /** The statement at position `k` of the documentation's class plays the role the sample gives it there. */
  lemma SampleRoleAt(a: char, b: char, k: int)
    requires IsUpper(a) && IsUpper(b) && 0 <= k < 12
    ensures RoleOf(InputStmt(a, b, k)) == InputRole([PropertyOf(b), PropertyOf(a)], k)
  {
    if k == 3 || k == 6 {
      MagicRoles(InputStmt(a, b, 6), InputStmt(a, b, 3));
    } else if k >= 2 {
      PrefixNamesAt(k);
      RoleOfAccessorName(InputStmt(a, b, k), SamplePrefix(k), SampleType(k), if k < 8 then b else a);
    }
  }

  lemma SampleInputShape(a: char, b: char)
    requires IsUpper(a) && IsUpper(b) && a != b
    ensures SampleShape([PropertyOf(b), PropertyOf(a)], SampleInput(a, b))
  {
    PropertiesDiffer(a, b);
    forall k | 0 <= k < 12
      ensures RoleOf(SampleInput(a, b)[k]) == InputRole([PropertyOf(b), PropertyOf(a)], k)
    {
      SampleRoleAt(a, b, k);
    }
  }

  /** The two property declarations give the property list; the methods add nothing. */
  lemma SamplePropertyNames(a: char, b: char)
    ensures PropertyNames(SampleInput(a, b)) == [PropertyOf(b), PropertyOf(a)]
  {
    var s := SampleInput(a, b);
    var fields, methods := s[..2], s[2..];
    assert s == fields + methods;
    assert PropertyNames(fields[..1]) == [PropertyOf(b)] by {
      assert fields[..1][..0] == [];
    }
    assert fields[..2][..1] == fields[..1] && fields[..2] == fields;
    PropertyNamesConcat(fields, methods);
    forall i | 0 <= i < |methods|
      ensures !methods[i].decl.Property?
    {
      assert methods[i] == s[i + 2];
    }
    PropertyNamesEmpty(methods);
  }

  /** Arranging the input class by position gives the output listed above. */
  lemma ArrangedInput(a: char, b: char)
    ensures Arrange(SampleInput(a, b)) == SampleOutput(a, b)
  {
    var s, e := Arrange(SampleInput(a, b)), SampleOutput(a, b);
    forall i | 0 <= i < 12
      ensures s[i] == e[i]
    {
      assert i == 0 || i == 1 || i == 2 || i == 3 || i == 4 || i == 5 || i == 6 || i == 7 || i == 8 || i == 9 || i == 10 || i == 11;
    }
  }

  /** The output is not the input: `__construct` has moved to the third place. */
  lemma SampleReorders(a: char, b: char)
    ensures Ids(SampleOutput(a, b)) != Ids(SampleInput(a, b))
  {
    assert Ids(SampleOutput(a, b))[2] == 6;
    assert Ids(SampleInput(a, b))[2] == 2;
  }

  /** The documented output puts `getAProperty` where the rule puts `getBProperty`. */
  lemma OutputsDiffer(a: char, b: char)
    ensures SampleOutput(a, b) != DocumentedOutput(a, b)
  {
    assert SampleOutput(a, b)[4].id != DocumentedOutput(a, b)[4].id;
  }

  /**
    The documentation's class: `bProperty` is declared before `aProperty`, so the rule
    puts `__construct` and `__toString` first and then all of `bProperty`'s accessors
    before `aProperty`'s. That is not the output the documentation shows.
   */
  lemma DocumentationSample(matchCallback: Option<string -> bool>, filePath: string, a: char, b: char)
    requires IsUpper(a) && IsUpper(b) && a != b
    requires matchCallback.None? || matchCallback.value(filePath)
    ensures Refactor(matchCallback, filePath, SampleInput(a, b)) == Some(SampleOutput(a, b))
    ensures SampleOutput(a, b) != DocumentedOutput(a, b)
  {
    var s := SampleInput(a, b);
    var props := [PropertyOf(b), PropertyOf(a)];
    SamplePropertyNames(a, b);
    SampleInputShape(a, b);
    SortArranges(props, s);
    ArrangedInput(a, b);
    SampleReorders(a, b);
    RefactorReorders(matchCallback, filePath, s, props, SampleOutput(a, b));
    OutputsDiffer(a, b);
  }
}
