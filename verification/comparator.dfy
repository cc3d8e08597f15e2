/**
  The `usort` callback of `refactor` (src/SortGettersSettersByPropertyOrderRector.php,
  lines 102-173) and two reference orders that explain it: `Level`, which it always
  follows, and `Key`, which it follows whenever every accessor targets a declared
  property.
 */
module Comparator {
  import opened Wrappers
  import opened Names
  import opened MethodNames
  import opened Ranks
  import opened Members

  /** `array_search($name, $props, true)`: the first position holding the name. */
  function IndexOf(props: seq<string>, name: string): (r: Option<nat>)
    ensures r.None? <==> name !in props
    ensures r.Some? ==> r.value < |props| && props[r.value] == name
    ensures r.Some? ==> forall i :: 0 <= i < r.value ==> props[i] != name
  {
    if |props| == 0 then None
    else if props[0] == name then Some(0)
    else match IndexOf(props[1..], name)
      case None => None
      case Some(i) => Some(i + 1)
  }

  /** The comparator, branch for branch as the callback is written. */
  function Cmp(props: seq<string>, a: Stmt, b: Stmt): (r: int)
    ensures -1 <= r <= 1
  {
    if !IsMethod(a) && !IsMethod(b) then 0
    else if !IsMethod(a) then -1
    else if !IsMethod(b) then 1
    else
      var aName, bName := a.decl.name, b.decl.name;
      var aIsMagic, bIsMagic := IsMagic(aName), IsMagic(bName);
      if aIsMagic && !bIsMagic then -1
      else if !aIsMagic && bIsMagic then 1
      else if aIsMagic && bIsMagic then Spaceship(MagicRank(aName), MagicRank(bName))
      else
        var aProperty, bProperty := ExtractProperty(aName), ExtractProperty(bName);
        if aProperty.None? && bProperty.None? then 0
        else if aProperty.None? then 1
        else if bProperty.None? then -1
        else if aProperty.value in props && bProperty.value in props then
          var propertyComparison := Spaceship(IndexOf(props, aProperty.value).value, IndexOf(props, bProperty.value).value);
          if propertyComparison != 0 then propertyComparison
          else Spaceship(TypePriority(ExtractMethodType(aName)), TypePriority(ExtractMethodType(bName)))
        else 0
  }

  /** What a statement is to the comparator. */
  datatype Role =
    | NonMethod
    | Magic(rank: int)
    | Accessor(target: string, kind: Option<AccessorType>)
    | Plain

  function RoleOf(s: Stmt): Role {
    match s.decl
    case Method(name) =>
      if IsMagic(name) then Magic(MagicRank(name))
      else if ExtractProperty(name).Some? then Accessor(ExtractProperty(name).value, ExtractMethodType(name))
      else Plain
    case _ => NonMethod
  }

  /** The coarse order: non-methods, then magic methods by rank, then accessors, then plain methods. */
  function Level(s: Stmt): Rank {
    match RoleOf(s)
    case NonMethod => Rank(0, 0, 0)
    case Magic(rank) => Rank(1, rank, 0)
    case Accessor(_, _) => Rank(2, 0, 0)
    case Plain => Rank(3, 0, 0)
  }

  /** The statement is not an accessor whose target is missing from the property list. */
  predicate Known(props: seq<string>, s: Stmt) {
    RoleOf(s).Accessor? ==> RoleOf(s).target in props
  }

  /**
    The fine order: like `Level`, but accessors are ordered by the position of their
    target in the property list and then by accessor type. An accessor with an
    undeclared target keeps its `Level` here; the comparator ties it with every
    other accessor, so no key describes it.
   */
  function Key(props: seq<string>, s: Stmt): Rank {
    match RoleOf(s)
    case Accessor(target, kind) =>
      if target in props then Rank(2, IndexOf(props, target).value, TypePriority(kind)) else Level(s)
    case _ => Level(s)
  }

  /** Two statements on different levels compare in level order, whatever the property list. */
  lemma CmpFollowsLevel(props: seq<string>, a: Stmt, b: Stmt)
    requires Below(Level(a), Level(b))
    ensures Cmp(props, a, b) == -1
    ensures Cmp(props, b, a) == 1
  {
  }

  /** Two non-methods, two plain methods, or two magic methods of equal rank compare equal. */
  lemma CmpTiesWithinLevel(props: seq<string>, a: Stmt, b: Stmt)
    requires Level(a) == Level(b) && !RoleOf(a).Accessor?
    ensures Cmp(props, a, b) == 0
  {
  }

  /** Two accessors compare equal as soon as either target is missing from the property list. */
  lemma UnknownAccessorTies(props: seq<string>, a: Stmt, b: Stmt)
    requires RoleOf(a).Accessor? && RoleOf(b).Accessor?
    requires !Known(props, a) || !Known(props, b)
    ensures Cmp(props, a, b) == 0
  {
  }

  /** Every accessor reaching the type comparison has a type, so its priority is 1 to 4. */
  lemma AccessorPriorityInRange(s: Stmt)
    requires RoleOf(s).Accessor?
    ensures 1 <= TypePriority(RoleOf(s).kind) <= 4
  {
    AccessorHasType(s.decl.name);
  }

  /** Among statements that are not accessors of undeclared properties, the comparator is `<=>` on keys. */
  lemma CmpMatchesKey(props: seq<string>, a: Stmt, b: Stmt)
    requires Known(props, a) && Known(props, b)
    ensures Cmp(props, a, b) == CompareRanks(Key(props, a), Key(props, b))
  {
    if RoleOf(a).Accessor? && RoleOf(b).Accessor? {
      AccessorPriorityInRange(a);
      AccessorPriorityInRange(b);
    }
  }

  /** Swapping the operands negates the result. */
  lemma CmpAntisymmetric(props: seq<string>, a: Stmt, b: Stmt)
    ensures Cmp(props, a, b) == -Cmp(props, b, a)
  {
    if IsMethod(a) && IsMethod(b) && !IsMagic(a.decl.name) && !IsMagic(b.decl.name) {
      var aProperty, bProperty := ExtractProperty(a.decl.name), ExtractProperty(b.decl.name);
      if aProperty.Some? && bProperty.Some? && aProperty.value in props && bProperty.value in props {
        assert Cmp(props, a, b) == -Cmp(props, b, a);
      }
    }
  }

  /** The constructor compares before every other method. */
  lemma ConstructorComparesFirst(props: seq<string>, a: Stmt, b: Stmt)
    requires a.decl == Method("__construct")
    requires IsMethod(b) && b.decl.name != "__construct"
    ensures Cmp(props, a, b) == -1 && Cmp(props, b, a) == 1
  {
    ConstructorRanksFirst(b.decl.name);
  }

  /** A one-letter getter `getC` targets the property named by the lower-cased letter. */
  lemma RoleOfShortGetter(id: nat, c: char)
    requires IsUpper(c)
    ensures RoleOf(Stmt(id, Method("get" + [c]))) == Accessor([ToLower(c)], Some(Get))
  {
    var name := "get" + [c];
    ExtractPropertyOfIdentifier("get", [c]);
    assert !IsMagic(name) by {
      StartsWithAgrees(name, "__", 0);
    }
    StartsWithConcat("get", [c]);
    MatchedPrefixIff(name, "get");
  }

  /** The equality the comparator reports does not chain: an accessor of an undeclared property ties with two accessors that are strictly ordered. */
  lemma CmpNotTransitive()
    ensures var props := ["x", "y"];
            var getX, getZ, getY := Stmt(0, Method("getX")), Stmt(1, Method("getZ")), Stmt(2, Method("getY"));
            Cmp(props, getX, getZ) == 0 && Cmp(props, getZ, getY) == 0 && Cmp(props, getX, getY) == -1
  {
    var props := ["x", "y"];
    var getX, getZ, getY := Stmt(0, Method("getX")), Stmt(1, Method("getZ")), Stmt(2, Method("getY"));
    assert "getX" == "get" + ['X'] && "getY" == "get" + ['Y'] && "getZ" == "get" + ['Z'];
    RoleOfShortGetter(0, 'X');
    RoleOfShortGetter(1, 'Z');
    RoleOfShortGetter(2, 'Y');
    assert IndexOf(props, "x") == Some(0) && IndexOf(props, "y") == Some(1);
    UnknownAccessorTies(props, getX, getZ);
    UnknownAccessorTies(props, getZ, getY);
    CmpMatchesKey(props, getX, getY);
  }
}
