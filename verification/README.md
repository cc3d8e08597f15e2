# SortGettersSettersByPropertyOrderRector in Dafny

A model of the Rector rule `SortGettersSettersByPropertyOrderRector`
(`src/SortGettersSettersByPropertyOrderRector.php`). The rule runs on a PHP class and reorders its statements:

- non-method statements (properties, constants, trait uses) are moved ahead of every method as a block, in their original order;
- magic methods come next, by a fixed rank with the constructor first;
- then accessors (`get`, `set`, `add`, `remove`, `is`, `has`, `can` and `should`, each followed by a capital letter). They are ordered by where their property is declared, and for one property by type: get, set, add, remove;
- other methods come last, in their original order.

The rule reports "no change" when the sort moved nothing. It gives up when a configured file filter rejects the file or when the class declares no property.

The modules follow the structure of the rule:

| module | file | contents |
|---|---|---|
| `Names` | names.dfy | ASCII `lcfirst` and `str_starts_with` |
| `MethodNames` | method_names.dfy | `isMagicMethod`, `getMagicMethodOrder`, `extractPropertyFromMethodName`, `extractMethodType` |
| `Ranks` | ranks.dfy | PHP's `<=>` and lexicographic keys |
| `InsertionSort` | insertion_sort.dfy | the stable sort `usort` performs: permutation, stability, key order, fixed points |
| `Members` | members.dfy | class statements with node identities; property collection |
| `Comparator` | comparator.dfy | the `usort` callback, branch for branch, and two reference orders that explain it |
| `Rector` | rector.dfy | `refactor` and the ordering theorems about its result |
| `Sample` | sample.dfy | the class of the rule's documentation and what `refactor` returns for it |

Modelling choices:

- **Statements.** A statement is `Stmt(id, decl)`. `decl` is a property declaration with its names, a method with its name, or anything else. `id` stands for `spl_object_id` of the node. "No change" compares the id sequences, as the rule does.
- **The sort.** PHP 8's `usort` is stable: ties keep their original order. The model is a right-to-left linear insertion sort for every length. Each element is inserted into the sorted prefix by walking from the right, and the walk stops at the first element that does not compare greater. Every element of the prefix was originally earlier, so stopping on a tie keeps the original order of tied elements.
- **The comparator is not transitive** (`Comparator.CmpNotTransitive`). An accessor whose property is not declared ties with every accessor. So the results come in two strengths:
  - `Comparator.Level` (non-method, magic by rank, accessor, plain) is always followed.
  - The finer `Comparator.Key` (accessors by first declaration index, then type priority) is followed whenever every accessor targets a declared property.
- **The pattern** `/^(get|set|add|remove|is|has|can|should)([A-Z].*)$/` is modelled over characters with PCRE's defaults. `.` does not match a line feed. `$` also matches just before a final line feed, which is then not captured. No prefix is a prefix of another, so the alternation never has a choice (`MethodNames.PrefixesExclusive`). The parsed name always starts with `a`–`z`, so PHP's truthiness test at line 141 is the same as a null test.
- **The file filter** is an `Option<string -> bool>` applied to the file path. Both are inputs.
- **Documentation and code disagree.** The rule's documentation sample (lines 22-64) declares `bProperty` before `aProperty`, yet shows the `aProperty` accessors first. The comparator (lines 153-162) orders accessors by declaration order, so the code puts `bProperty`'s accessors first. The model follows the code. `Sample.DocumentationSample` takes the sample's whole class (two properties, ten methods in the documented order, any two distinct capital letters in place of `A` and `B`). It proves that the rule returns `__construct`, `__toString`, then `bProperty`'s four accessors, then `aProperty`'s, and that this differs from the documented output.

## Model

| member | source | states |
|---|---|---|
| Names.Lcfirst | src/SortGettersSettersByPropertyOrderRector.php:191 | `lcfirst` keeps the length, lower-cases the first character (ASCII only) and keeps the rest |
| MethodNames.MatchedPrefix | src/SortGettersSettersByPropertyOrderRector.php:199 | the anchored prefix group matches one of the eight listed prefixes the name starts with, and matches nothing exactly when the name starts with none of them |
| MethodNames.PrefixesExclusive | src/SortGettersSettersByPropertyOrderRector.php:190 | a name starts with at most one of the eight accessor prefixes |
| MethodNames.MatchedPrefixIff | src/SortGettersSettersByPropertyOrderRector.php:199 | the group matches prefix `p` if and only if `p` is listed and the name starts with it |
| MethodNames.NoPrefixUnlessLower | src/SortGettersSettersByPropertyOrderRector.php:190 | a name that does not start with `a`–`z` (e.g. `GetX`) has no accessor prefix: the pattern is case-sensitive |
| MethodNames.Capture | src/SortGettersSettersByPropertyOrderRector.php:190 | `([A-Z].*)$` captures the remainder exactly when it is a capital letter followed by non-line-feed characters, optionally followed by one final line feed that is not captured |
| MethodNames.ExtractProperty | src/SortGettersSettersByPropertyOrderRector.php:188-195 | a found property name is never empty and starts with a lower-case letter, so it is never falsy at line 141 |
| MethodNames.ExtractPropertyIff | src/SortGettersSettersByPropertyOrderRector.php:188-195 | `extractPropertyFromMethodName` returns `t` if and only if the name is a listed prefix, then a capital-letter remainder without line feeds (plus at most one final line feed), and `t` is `lcfirst` of that remainder |
| MethodNames.ExtractPropertyHasShape | src/SortGettersSettersByPropertyOrderRector.php:190-191 | every found name comes from such a prefix and remainder, and is `lcfirst` of the remainder |
| MethodNames.ExtractPropertyOfShape | src/SortGettersSettersByPropertyOrderRector.php:190-191 | every name of that shape yields `lcfirst` of its remainder |
| MethodNames.ExtractPropertyOfIdentifier | src/SortGettersSettersByPropertyOrderRector.php:188-195 | for a prefix and a remainder without line feeds, the result is `lcfirst(remainder)` exactly when the remainder starts with `A`–`Z`, and null otherwise |
| MethodNames.ExtractPropertyWithoutPrefix | src/SortGettersSettersByPropertyOrderRector.php:190-194 | a name without an accessor prefix yields null |
| MethodNames.ExtractPropertyOfGetter | src/SortGettersSettersByPropertyOrderRector.php:188-195 | `getBProperty` yields `bProperty` |
| MethodNames.ReadingAccessorIsGetter | src/SortGettersSettersByPropertyOrderRector.php:188-206 | `get`, `is`, `has`, `can` or `should` followed by a capitalised identifier targets that identifier with its first letter lower-cased, and has the type get |
| MethodNames.ReaderIsGetter | src/SortGettersSettersByPropertyOrderRector.php:188-206 | `isActive` targets `active` and is ranked as a getter |
| MethodNames.ExtractPropertyRejects | src/SortGettersSettersByPropertyOrderRector.php:188-195 | `get`, `getter` and `GetX` yield null |
| MethodNames.ExtractMethodType | src/SortGettersSettersByPropertyOrderRector.php:197-207 | `extractMethodType` is null exactly when no accessor prefix matches |
| MethodNames.TypeOfPrefix | src/SortGettersSettersByPropertyOrderRector.php:202-203 | among the accessor prefixes, exactly the reading ones (get, is, has, can, should) give the type get |
| MethodNames.ExtractMethodTypeIff | src/SortGettersSettersByPropertyOrderRector.php:197-207 | the type is get exactly for `get`, `is`, `has`, `can` and `should`; set, add and remove exactly for their own prefixes; null exactly when no prefix matches |
| MethodNames.TypePriority | src/SortGettersSettersByPropertyOrderRector.php:165-169 | `$methodOrder[$type] ?? 5` lies in 1..5 and is 5 exactly for a null type |
| MethodNames.AccessorHasType | src/SortGettersSettersByPropertyOrderRector.php:197-207 | every name with a property also has a type: the one of its matched prefix, with priority 1..4, so the fallback 5 is never used for an accessor |
| MethodNames.IsMagic | src/SortGettersSettersByPropertyOrderRector.php:209-212 | a method is magic when its name begins with two underscores |
| MethodNames.MagicIsNotAccessor | src/SortGettersSettersByPropertyOrderRector.php:188-212 | a magic name has no target property and no accessor type |
| MethodNames.MagicRank | src/SortGettersSettersByPropertyOrderRector.php:214-235 | a listed magic method ranks 1..16; any other name ranks 999 |
| MethodNames.ConstructorRanksFirst | src/SortGettersSettersByPropertyOrderRector.php:209-217 | `__construct` is magic with rank 1, and every other name ranks strictly higher |
| MethodNames.MagicRankOrdersTable | src/SortGettersSettersByPropertyOrderRector.php:214-235 | listed names rank before unlisted ones, no two listed names share a rank, and all unlisted names share one rank |
| Ranks.Spaceship | src/SortGettersSettersByPropertyOrderRector.php:134 | `<=>` is -1, 0 or 1 exactly when the left side is smaller, equal or greater |
| Ranks.CompareRanks | src/SortGettersSettersByPropertyOrderRector.php:158-169 | comparing by property index and then by type priority is `<=>` on keys: -1, 0 or 1 exactly for lexicographically below, equal and above |
| InsertionSort.InsertionPoint | src/SortGettersSettersByPropertyOrderRector.php:102 | an inserted element lands after the last prefix element that does not compare greater than it, and before every element that does |
| InsertionSort.Sort | src/SortGettersSettersByPropertyOrderRector.php:102 | `usort`'s result is a permutation of its input |
| InsertionSort.SortKeepsOrderOfTies | src/SortGettersSettersByPropertyOrderRector.php:102 | stability: elements of a group that compare equal-or-less among themselves keep their relative order |
| InsertionSort.SortIsKeySorted | src/SortGettersSettersByPropertyOrderRector.php:102 | if the comparator follows a key on a set of elements, a sort of such elements is ordered by that key |
| InsertionSort.InsertKeepsInOrder | src/SortGettersSettersByPropertyOrderRector.php:102 | with an antisymmetric comparator, inserting into a list where no neighbour pair is reversed keeps it so |
| InsertionSort.SortIsInOrder | src/SortGettersSettersByPropertyOrderRector.php:102 | with an antisymmetric comparator, no neighbour pair of the sorted list compares greater |
| InsertionSort.KeySortedUnique | src/SortGettersSettersByPropertyOrderRector.php:102 | two key-ordered arrangements of the same elements, tied only within one class whose relative order they share, are equal |
| InsertionSort.StableKeySortedUnique | src/SortGettersSettersByPropertyOrderRector.php:102 | two key-sorted arrangements of the same elements that list each key's elements in the same order are equal: a stable sort by key has one result |
| InsertionSort.SortOfInOrder | src/SortGettersSettersByPropertyOrderRector.php:102 | a sequence in which no element compares greater than the next is left exactly as it is |
| Members.PropertyNames | src/SortGettersSettersByPropertyOrderRector.php:86-91 | the names of the property declarations, in declaration order and each declaration's names left to right |
| Members.PropertyNamesIff | src/SortGettersSettersByPropertyOrderRector.php:86-91 | a name is collected exactly when some property declaration declares it |
| Members.PropertyNamesConcat | src/SortGettersSettersByPropertyOrderRector.php:86-91 | names are collected in declaration order, each declaration's names in their own order |
| Members.PropertyNamesEmpty | src/SortGettersSettersByPropertyOrderRector.php:86-95 | the list is empty exactly when no property declaration declares a name |
| Members.PropertyNamesOfNonMethods | src/SortGettersSettersByPropertyOrderRector.php:86-91 | methods do not affect the collected names |
| Members.Ids | src/SortGettersSettersByPropertyOrderRector.php:176-177 | `array_map('spl_object_id', ...)` lists each statement's identity, position by position |
| Members.SameIdsMeansSameOrder | src/SortGettersSettersByPropertyOrderRector.php:175-181 | for distinct nodes, a permutation that shows the same identity sequence is the original sequence |
| Comparator.IndexOf | src/SortGettersSettersByPropertyOrderRector.php:156-157 | `array_search` gives the first position holding the name, and fails exactly when the name is absent |
| Comparator.Cmp | src/SortGettersSettersByPropertyOrderRector.php:102-173 | the callback returns -1, 0 or 1 |
| Comparator.CmpFollowsLevel | src/SortGettersSettersByPropertyOrderRector.php:104-151 | a non-method precedes every method, a magic method precedes every non-magic method, a lower magic rank comes first, and an accessor precedes a plain method, from either side |
| Comparator.CmpTiesWithinLevel | src/SortGettersSettersByPropertyOrderRector.php:104-143 | two non-methods, two plain methods, or two magic methods of equal rank compare 0 |
| Comparator.UnknownAccessorTies | src/SortGettersSettersByPropertyOrderRector.php:154-172 | two accessors compare 0 when either property is not declared |
| Comparator.AccessorPriorityInRange | src/SortGettersSettersByPropertyOrderRector.php:165-169 | every accessor reaching the type comparison has priority 1..4 |
| Comparator.CmpMatchesKey | src/SortGettersSettersByPropertyOrderRector.php:102-173 | among statements that are not accessors of undeclared properties, the callback is `<=>` on the key (0) / (1, rank) / (2, first index, type priority) / (3) |
| Comparator.CmpAntisymmetric | src/SortGettersSettersByPropertyOrderRector.php:102-173 | swapping the operands negates the result |
| Comparator.ConstructorComparesFirst | src/SortGettersSettersByPropertyOrderRector.php:120-135 | `__construct` compares before every other method |
| Comparator.CmpNotTransitive | src/SortGettersSettersByPropertyOrderRector.php:154-172 | with properties `x`, `y`: `getX` ties with `getZ`, `getZ` ties with `getY`, yet `getX` precedes `getY` |
| Rector.SortStatements | src/SortGettersSettersByPropertyOrderRector.php:97-173 | the sorted statements are a permutation of the class's statements |
| Rector.Refactor | src/SortGettersSettersByPropertyOrderRector.php:71-186 | a rejecting filter gives null; no declared property gives null; a non-null result is a permutation whose identity sequence differs from the original |
| Rector.UnchangedIffAlreadyInOrder | src/SortGettersSettersByPropertyOrderRector.php:175-185 | once the gates pass (and nodes are distinct), the result is null exactly when sorting leaves the sequence unchanged, and otherwise it is the sorted sequence |
| Rector.LevelRespected | src/SortGettersSettersByPropertyOrderRector.php:102-151 | the callback follows the coarse order for all statements |
| Rector.SortedByLevel | src/SortGettersSettersByPropertyOrderRector.php:102-173 | the result is ordered by level: non-methods, magic methods by rank, accessors, plain methods |
| Rector.LevelOrderKept | src/SortGettersSettersByPropertyOrderRector.php:102-173 | statements of one non-accessor level keep their relative order |
| Rector.NonMethodsLead | src/SortGettersSettersByPropertyOrderRector.php:103-115 | every non-method precedes every method in the result |
| Rector.NonMethodsKeepOrder | src/SortGettersSettersByPropertyOrderRector.php:103-106 | non-methods keep their relative order, so the collected property list is the same after sorting |
| Rector.MagicMethodsLead | src/SortGettersSettersByPropertyOrderRector.php:120-130 | every magic method precedes every non-magic method |
| Rector.MagicMethodsByRank | src/SortGettersSettersByPropertyOrderRector.php:132-135 | magic methods come out in ascending rank |
| Rector.ConstructorLeadsMethods | src/SortGettersSettersByPropertyOrderRector.php:132-135 | no method other than `__construct` precedes a `__construct` |
| Rector.PlainMethodsTrailInOrder | src/SortGettersSettersByPropertyOrderRector.php:140-147 | methods that are neither magic nor accessors come after every other statement and keep their relative order |
| Rector.UnknownAccessorsKeepOrder | src/SortGettersSettersByPropertyOrderRector.php:153-172 | accessors of undeclared properties keep their relative order |
| Rector.KeyRespected | src/SortGettersSettersByPropertyOrderRector.php:153-169 | among statements that are not accessors of undeclared properties, the callback follows the key and ties equal keys |
| Rector.SortedByKeyWhenKnown | src/SortGettersSettersByPropertyOrderRector.php:102-173 | when every accessor targets a declared property, the result is ordered by key |
| Rector.SortIsTheStableKeyOrder | src/SortGettersSettersByPropertyOrderRector.php:102-173 | when every accessor targets a declared property, every key-sorted permutation of the class that keeps each key's statements in their original order is the rule's sorted class |
| Rector.EqualKeysKeepOrder | src/SortGettersSettersByPropertyOrderRector.php:158-169 | statements with equal keys (e.g. two getters of one property) keep their relative order |
| Rector.AccessorsGroupedByProperty | src/SortGettersSettersByPropertyOrderRector.php:153-169 | when every accessor targets a declared property, accessors of an earlier-declared property precede those of a later one, and one property's accessors run get, set, add, remove |
| Rector.SortedStaysKnown | src/SortGettersSettersByPropertyOrderRector.php:97-99 | sorting keeps every accessor's property declared, because the statements only move |
| Rector.SortedIsFixed | src/SortGettersSettersByPropertyOrderRector.php:102-173 | sorting the sorted statements changes nothing, also when some accessor targets an undeclared property |
| Rector.RefactorIdempotent | src/SortGettersSettersByPropertyOrderRector.php:71-186 | applying the rule to its own output reports no change |
| Rector.ComparerAntisymmetric | src/SortGettersSettersByPropertyOrderRector.php:108-172 | the callback never says `a` after `b` and `b` after `a` together: a positive answer one way is negative the other way |
| Sample.RoleOfAccessorName | src/SortGettersSettersByPropertyOrderRector.php:188-207 | a method `<prefix>XProperty` with prefix get, set, add or remove is an accessor of `xProperty` of that type |
| Sample.SortArranges | src/SortGettersSettersByPropertyOrderRector.php:102-173 | for any class shaped like the documentation's (two properties, the ten methods in its order), the sort moves the constructor and `__toString` first and leaves the eight accessors grouped by declaration order |
| Sample.DocumentationSample | src/SortGettersSettersByPropertyOrderRector.php:27-60 | for the documentation's class, the rule returns `__construct`, `__toString`, the accessors of `bProperty` (declared first), then those of `aProperty`; this is not the documented output |

## Left out

- `getNodeTypes`, the `instanceof Class_` guard, `getName` and `$this->file->getFilePath()` are supplied by Rector and php-parser. The model receives the statement list, the method and property names and the file path as inputs.
- `configure` (lines 241-244): the filter arrives as an optional predicate on the path. A callback that returns a non-boolean value is not modelled; it is taken as returning true or false.
- `getRuleDefinition` (lines 22-64) is documentation only. Its sample output contradicts the code, as described above.
- The node identities are natural numbers on the statements. `spl_object_id` itself is not modelled, and neither is the copy of the statement array.
- PHP's `zend_sort` is not modelled step by step. Its insertion sort uses fixed compare-and-swap sequences for a few elements and bisection beyond the first few, and arrays longer than 16 elements go through a hybrid sort. The model is a right-to-left linear insertion for every length. With an accessor of an undeclared property the comparator is not transitive, so PHP may then place that accessor differently. When every accessor targets a declared property the comparator is a weak order (`Comparator.CmpMatchesKey`), and the model's result is the only stable ordering by that key (`Rector.SortIsTheStableKeyOrder`).
- The PCRE engine is not modelled. The one pattern the rule uses is specified directly over characters.
- `rector.php` and `tests/config/configured_rule.php` only register the rule.
- Comparator.Cmp: its own contract states only the range -1..1. What it computes is stated by `CmpFollowsLevel`, `CmpTiesWithinLevel`, `UnknownAccessorTies`, `CmpMatchesKey` and `CmpAntisymmetric`.
- Rector.AccessorsGroupedByProperty: stated only when every accessor targets a declared property. Otherwise an accessor of an undeclared property ties with all accessors, and the comparator is not a weak order.
- Rector.UnchangedIffAlreadyInOrder: requires distinct node identities. Two statements cannot be one node.
