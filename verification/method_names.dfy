/**
  How the rule reads a method name: magic-method detection and rank, accessor-name
  parsing into a target property, and the accessor type behind a name prefix
  (src/SortGettersSettersByPropertyOrderRector.php, lines 188-235).
 */
module MethodNames {
  import opened Wrappers
  import opened Names

  /** The alternatives of the group `(get|set|add|remove|is|has|can|should)`, in pattern order. */
  const AccessorPrefixes: seq<string> := ["get", "set", "add", "remove", "is", "has", "can", "should"]

  /** The prefixes that name a reading accessor. */
  const GetterPrefixes: seq<string> := ["get", "is", "has", "can", "should"]

  /** The first candidate the name starts with, trying candidates in order. */
  function FirstMatch(name: string, candidates: seq<string>): (r: Option<string>)
    ensures r.Some? ==> r.value in candidates && StartsWith(name, r.value)
    ensures r.None? ==> forall p :: p in candidates ==> !StartsWith(name, p)
  {
    if |candidates| == 0 then None
    else if StartsWith(name, candidates[0]) then Some(candidates[0])
    else FirstMatch(name, candidates[1..])
  }

  /** No accessor prefix is a proper prefix of another one. */
  lemma PrefixesAreNotNested(p: string, q: string)
    requires p in AccessorPrefixes && q in AccessorPrefixes && p != q
    ensures !StartsWith(q, p)
  {
    StartsWithAgrees(q, p, 0);
    StartsWithAgrees(q, p, 1);
  }

  /** A name starts with at most one accessor prefix, so the alternation never has a choice to make. */
  lemma PrefixesExclusive(name: string, p: string, q: string)
    requires p in AccessorPrefixes && q in AccessorPrefixes
    requires StartsWith(name, p) && StartsWith(name, q)
    ensures p == q
  {
    if p != q {
      if |p| <= |q| {
        assert q[..|p|] == name[..|q|][..|p|] == name[..|p|] == p;
        PrefixesAreNotNested(p, q);
      } else {
        assert p[..|q|] == name[..|p|][..|q|] == name[..|q|] == q;
        PrefixesAreNotNested(q, p);
      }
    }
  }

  /** Every accessor prefix starts with a lower-case letter, so no other name has one. */
  lemma NoPrefixUnlessLower(name: string)
    requires |name| == 0 || !IsLower(name[0])
    ensures forall p :: p in AccessorPrefixes ==> !StartsWith(name, p)
  {
    forall p | p in AccessorPrefixes
      ensures !StartsWith(name, p)
    {
      StartsWithAgrees(name, p, 0);
    }
  }

  /** The prefix the anchored group `^(get|set|add|remove|is|has|can|should)` matches, if any. */
  function MatchedPrefix(name: string): (r: Option<string>)
    ensures r.Some? ==> r.value in AccessorPrefixes && StartsWith(name, r.value)
    ensures r.None? <==> forall p :: p in AccessorPrefixes ==> !StartsWith(name, p)
  {
    FirstMatch(name, AccessorPrefixes)
  }

  lemma MatchedPrefixIff(name: string, p: string)
    ensures MatchedPrefix(name) == Some(p) <==> p in AccessorPrefixes && StartsWith(name, p)
  {
    if p in AccessorPrefixes && StartsWith(name, p) {
      PrefixesExclusive(name, p, MatchedPrefix(name).value);
    }
  }

  /**
    What `([A-Z].*)` may capture: an upper-case letter followed by characters other
    than a line feed (PCRE's `.` does not match a line feed by default).
   */
  predicate IsCapture(body: string) {
    |body| > 0 && IsUpper(body[0]) && '\n' !in body
  }

  /**
    The capture of `([A-Z].*)$` on the text after the prefix. Without the `D` modifier
    `$` also matches just before a final line feed, which is then not captured.
   */
  function Capture(rest: string): (r: Option<string>)
    ensures r.Some? ==> IsCapture(r.value) && (rest == r.value || rest == r.value + "\n")
    ensures r.None? ==> forall body :: IsCapture(body) ==> rest != body && rest != body + "\n"
  {
    if IsCapture(rest) then Some(rest)
    else if |rest| > 0 && rest[|rest| - 1] == '\n' && IsCapture(rest[..|rest| - 1]) then
      assert rest == rest[..|rest| - 1] + "\n";
      Some(rest[..|rest| - 1])
    else
      assert forall body :: IsCapture(body) && rest == body + "\n" ==> rest[..|rest| - 1] == body;
      None
  }

  /**
    `extractPropertyFromMethodName`: the property an accessor name targets. The result
    is never empty and starts with a lower-case letter, so PHP never reads it as falsy.
   */
  function ExtractProperty(name: string): (r: Option<string>)
    ensures r.Some? ==> |r.value| > 0 && IsLower(r.value[0])
  {
    match MatchedPrefix(name)
    case None => None
    case Some(prefix) =>
      match Capture(name[|prefix|..])
      case None => None
      case Some(body) => Some(Lcfirst(body))
  }

  /** A name that the accessor pattern matches, split into its prefix and captured remainder. */
  predicate AccessorShape(name: string, prefix: string, body: string) {
    && prefix in AccessorPrefixes
    && IsCapture(body)
    && (name == prefix + body || name == prefix + body + "\n")
  }

  /** A target found by accessor parsing comes from an accessor-shaped name. */
  lemma ExtractPropertyHasShape(name: string)
    requires ExtractProperty(name).Some?
    ensures exists prefix, body :: AccessorShape(name, prefix, body) && ExtractProperty(name).value == Lcfirst(body)
  {
    var prefix := MatchedPrefix(name).value;
    var body := Capture(name[|prefix|..]).value;
    assert name == prefix + name[|prefix|..];
    assert AccessorShape(name, prefix, body);
  }

  /** An accessor-shaped name yields lcfirst of its captured remainder. */
  lemma ExtractPropertyOfShape(name: string, prefix: string, body: string)
    requires AccessorShape(name, prefix, body)
    ensures ExtractProperty(name) == Some(Lcfirst(body))
  {
    var tail := name[|prefix|..];
    assert name == prefix + tail;
    StartsWithConcat(prefix, tail);
    MatchedPrefixIff(name, prefix);
    assert tail == body || tail == body + "\n";
    if tail != body {
      assert tail[|tail| - 1] == '\n' && tail[..|tail| - 1] == body;
    }
  }

  /** Accessor parsing finds a target exactly when the name has accessor shape, and the target is the lcfirst of the captured remainder. */
  lemma ExtractPropertyIff(name: string, target: string)
    ensures ExtractProperty(name) == Some(target)
        <==> exists prefix, body :: AccessorShape(name, prefix, body) && target == Lcfirst(body)
  {
    if ExtractProperty(name) == Some(target) {
      ExtractPropertyHasShape(name);
    }
    if exists prefix, body :: AccessorShape(name, prefix, body) && target == Lcfirst(body) {
      var prefix, body :| AccessorShape(name, prefix, body) && target == Lcfirst(body);
      ExtractPropertyOfShape(name, prefix, body);
    }
  }

  /** For a name without line feeds, as every PHP identifier is: prefix, then an upper-case letter, yields lcfirst of the remainder; anything else after the prefix yields nothing. */
  lemma ExtractPropertyOfIdentifier(prefix: string, rest: string)
    requires prefix in AccessorPrefixes
    requires '\n' !in rest
    ensures |rest| > 0 && IsUpper(rest[0]) ==> ExtractProperty(prefix + rest) == Some(Lcfirst(rest))
    ensures !(|rest| > 0 && IsUpper(rest[0])) ==> ExtractProperty(prefix + rest) == None
  {
    var name := prefix + rest;
    StartsWithConcat(prefix, rest);
    MatchedPrefixIff(name, prefix);
    if |rest| > 0 && IsUpper(rest[0]) {
      assert Capture(rest) == Some(rest);
    } else {
      assert Capture(rest) == None;
    }
  }

  /** Names without any accessor prefix have no target. */
  lemma ExtractPropertyWithoutPrefix(name: string)
    requires forall p :: p in AccessorPrefixes ==> !StartsWith(name, p)
    ensures ExtractProperty(name) == None
  {
  }

  lemma ExtractPropertyOfGetter(name: string)
    requires name == "getBProperty"
    ensures ExtractProperty(name) == Some("bProperty")
  {
    assert AccessorShape(name, "get", "BProperty");
    ExtractPropertyOfShape(name, "get", "BProperty");
    assert Lcfirst("BProperty") == "bProperty";
  }

  /** A bare prefix, a lower-case letter after the prefix, and an upper-case prefix all yield nothing. */
  lemma ExtractPropertyRejects(bare: string, lower: string, capital: string)
    requires bare == "get" && lower == "getter" && capital == "GetX"
    ensures ExtractProperty(bare) == None
    ensures ExtractProperty(lower) == None
    ensures ExtractProperty(capital) == None
  {
    assert bare == "get" + "";
    ExtractPropertyOfIdentifier("get", "");
    assert lower == "get" + "ter";
    ExtractPropertyOfIdentifier("get", "ter");
    NoPrefixUnlessLower(capital);
  }

  /** The accessor types the comparator ranks; `is`, `has`, `can` and `should` read like `get`. */
  datatype AccessorType = Get | Set | Add | Remove

  /** The type a matched prefix stands for: exactly the reading prefixes give Get. */
  function TypeOfPrefix(prefix: string): (r: AccessorType)
    ensures prefix in AccessorPrefixes ==> (r == Get <==> prefix in GetterPrefixes)
  {
    if prefix == "set" then Set
    else if prefix == "add" then Add
    else if prefix == "remove" then Remove
    else Get
  }

  /** `extractMethodType`: the accessor type of the prefix the name starts with, if any. */
  function ExtractMethodType(name: string): (r: Option<AccessorType>)
    ensures r.None? <==> MatchedPrefix(name).None?
  {
    match MatchedPrefix(name)
    case None => None
    case Some(prefix) => Some(TypeOfPrefix(prefix))
  }

  /** Which prefix gives which type: the four reading prefixes and `get` give Get, the others name their own type. */
  lemma ExtractMethodTypeIff(name: string)
    ensures ExtractMethodType(name) == Some(Get) <==> exists p :: p in GetterPrefixes && StartsWith(name, p)
    ensures ExtractMethodType(name) == Some(Set) <==> StartsWith(name, "set")
    ensures ExtractMethodType(name) == Some(Add) <==> StartsWith(name, "add")
    ensures ExtractMethodType(name) == Some(Remove) <==> StartsWith(name, "remove")
    ensures ExtractMethodType(name) == None <==> forall p :: p in AccessorPrefixes ==> !StartsWith(name, p)
  {
    if exists p :: p in GetterPrefixes && StartsWith(name, p) {
      var p :| p in GetterPrefixes && StartsWith(name, p);
      MatchedPrefixIff(name, p);
    }
    MatchedPrefixIff(name, "set");
    MatchedPrefixIff(name, "add");
    MatchedPrefixIff(name, "remove");
  }

  /** `$methodOrder[$type] ?? 5` with get=1, set=2, add=3, remove=4. */
  function TypePriority(t: Option<AccessorType>): (r: int)
    ensures 1 <= r <= 5
    ensures r == 5 <==> t.None?
  {
    match t
    case None => 5
    case Some(Get) => 1
    case Some(Set) => 2
    case Some(Add) => 3
    case Some(Remove) => 4
  }

  /** Every name with a target also has an accessor type, so the fallback priority 5 is never used for it. */
  lemma AccessorHasType(name: string)
    requires ExtractProperty(name).Some?
    ensures ExtractMethodType(name).Some?
    ensures ExtractMethodType(name) == Some(TypeOfPrefix(MatchedPrefix(name).value))
    ensures 1 <= TypePriority(ExtractMethodType(name)) <= 4
  {
  }

  /** A reading prefix followed by a capitalised identifier names a getter of that identifier, lower-cased first. */
  lemma ReadingAccessorIsGetter(prefix: string, rest: string)
    requires prefix in GetterPrefixes && '\n' !in rest
    requires |rest| > 0 && IsUpper(rest[0])
    ensures ExtractProperty(prefix + rest) == Some(Lcfirst(rest))
    ensures ExtractMethodType(prefix + rest) == Some(Get)
  {
    ExtractPropertyOfIdentifier(prefix, rest);
    StartsWithConcat(prefix, rest);
    MatchedPrefixIff(prefix + rest, prefix);
  }

  /** A boolean reader `isActive` targets `active` and is ranked as a getter. */
  lemma ReaderIsGetter(name: string)
    requires name == "isActive"
    ensures ExtractProperty(name) == Some("active")
    ensures ExtractMethodType(name) == Some(Get)
  {
    var rest, lowered := "Active", "active";
    assert rest[0] == 'A' && '\n' !in rest;
    assert name == "is" + rest;
    ReadingAccessorIsGetter("is", rest);
    assert ToLower('A') == 'a';
    assert Lcfirst(rest) == lowered by {
      assert Lcfirst(rest)[0] == lowered[0];
      assert Lcfirst(rest)[1..] == lowered[1..];
    }
  }

  /** `isMagicMethod`: the name starts with two underscores. */
  predicate IsMagic(name: string) {
    StartsWith(name, "__")
  }

  /** A magic name starts with no accessor prefix, so it has neither a target property nor an accessor type. */
  lemma MagicIsNotAccessor(name: string)
    requires IsMagic(name)
    ensures ExtractProperty(name) == None && ExtractMethodType(name) == None
  {
    NoPrefixUnlessLower(name);
  }

  /** The fixed rank table of `getMagicMethodOrder`; lookups are exact and case-sensitive. */
  const MagicOrder: map<string, int> := map[
    "__construct" := 1,
    "__destruct" := 2,
    "__toString" := 3,
    "__invoke" := 4,
    "__get" := 5,
    "__set" := 6,
    "__isset" := 7,
    "__unset" := 8,
    "__call" := 9,
    "__callStatic" := 10,
    "__clone" := 11,
    "__sleep" := 12,
    "__wakeup" := 13,
    "__serialize" := 14,
    "__unserialize" := 15,
    "__debugInfo" := 16
  ]

  /** The rank of names missing from the table. */
  const UnlistedRank: int := 999

  /** `getMagicMethodOrder`: the table's rank, or 999 for a name it does not list. */
  function MagicRank(name: string): (r: int)
    ensures name in MagicOrder ==> 1 <= r <= 16
    ensures name !in MagicOrder ==> r == UnlistedRank
  {
    if name in MagicOrder then MagicOrder[name] else UnlistedRank
  }

  /** The constructor has the smallest rank, strictly below every other name's. */
  lemma ConstructorRanksFirst(name: string)
    ensures IsMagic("__construct") && MagicRank("__construct") == 1
    ensures name != "__construct" ==> MagicRank(name) > 1
  {
  }

  /** Listed names rank strictly before unlisted ones, and no two listed names share a rank. */
  lemma MagicRankOrdersTable(a: string, b: string)
    ensures a in MagicOrder && b !in MagicOrder ==> MagicRank(a) < MagicRank(b)
    ensures a in MagicOrder && b in MagicOrder && a != b ==> MagicRank(a) != MagicRank(b)
    ensures a !in MagicOrder && b !in MagicOrder ==> MagicRank(a) == MagicRank(b)
  {
  }
}
