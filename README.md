# Semantic network with attribute inheritance

A model of a small semantic network. The network is loaded from a text
file of facts: `es_un(child, parent)`, `instancia(inst, klass)` and
`atributo(entity, attr, value)`. It answers two questions:

- `atributo X de Y?`: the effective value of attribute `X` for entity `Y`;
- `clases o instancias con atributo X y valor Z?`: every entity whose
  effective value of `X` is `Z`.

An entity's effective value is its own direct value. Failing that, it is
found by a breadth-first search up the is-a graph. The search starts at the
entity itself for a class, or at its class for an instance. The nearest
ancestor holding the attribute wins, and cycles in the graph are tolerated.

Modules, one file each:

- `wrappers.dfy` (`Wrappers`): `Option`, `Result` and `Get`, which models
  `dict.get`.
- `ordering.dfy` (`Ordering`): the code-point order on strings that
  `sorted` uses, and `Sorted` for a set of strings.
- `text.dfy` (`Text`): `str.strip`, `str.split(",")`, whitespace tokens and
  ASCII case folding.
- `network.dfy` (`Network`): the network as a value `Net` and the three
  builders as functions. Each builder states its whole effect and keeps the
  invariant `Valid`. Also `all_entities`.
- `inheritance.dfy` (`Inheritance`): the breadth-first search as the
  function `Search`, the lookups `ChainLookup` and `EffectiveAttr`, and the
  proof that the search returns the value of a nearest holder or nothing.
- `semantic_net.dfy` (`SemanticNetwork`): the mutable object. It is the
  class `SemanticNet` with the program's five fields. Each method is tied
  to the value-level function of the old state. The search is a `while`
  loop over a queue and a visited set.
- `facts.dfy` (`Facts`): the fact-line grammar, `parse_fact` with its
  errors, and `load_file` as a fold over lines.
- `loader.dfy` (`Loader`): `load_file` as a loop that builds a
  `SemanticNet`.
- `queries.dfy` (`Queries`): recognising the two questions, the scan over
  all entities, and `answer_query`.
- `scenarios.dfy` (`Scenarios`): consequences for concrete situations. It
  covers cycles, a nearest ancestor, the diamond, and the worked example in
  which dogs are animals, animals sound generic, and Rex is a dog that
  sounds woof.

Parse errors are the value `Err(ParseError)`, not exceptions. A
`ParseError` is either `InvalidLine(line)` or `WrongArity(kind, line)`,
with the same texts as the `ValueError`s raised in `main.py:91-104`.

## Model

| member | source | states |
|---|---|---|
| Wrappers.Get | main.py:69 | `dict.get`: the value for a present key, and nothing for an absent one |
| Ordering.Sorted | main.py:40 | the result is strictly increasing and contains exactly the elements of the set |
| Ordering.SortedUnique | main.py:40 | every strictly increasing listing of a set's elements is `Sorted` of that set, so the order of `all_entities` is fully determined |
| Ordering.AtMostTotal | main.py:40 | any two strings are comparable in the order `sorted` uses |
| Ordering.AtMostTransitive | main.py:40 | that order is transitive |
| Text.Strip | main.py:86 | the result has no whitespace at either end and is no longer than the input |
| Text.SpacesAroundStrip | main.py:86 | the input is whitespace, then the result, then whitespace |
| Text.StripOfPadded | main.py:86 | stripping whitespace-padded trimmed text gives that text exactly |
| Text.StripIdempotent | main.py:111 | stripping again, as `parse_fact` does after `load_file`, changes nothing |
| Text.Split | main.py:93 | at least one piece results, and no piece contains a comma |
| Text.JoinSplit | main.py:93 | rejoining the pieces with commas gives back the original text |
| Text.SplitJoin | main.py:93 | splitting comma-free pieces joined by commas gives back those pieces |
| Text.StripAll | main.py:93 | each piece is stripped, and the count is unchanged |
| Text.Tokens | main.py:129-130 | every token is non-empty and contains no whitespace |
| Text.TokensOfWordThen | main.py:129-130 | a word followed by a non-empty run of whitespace and more text tokenises to the word followed by the tokens of that text |
| Text.TokensOfWordSpaces | main.py:129-130 | a word followed by trailing whitespace only is a single token |
| Text.TokensAfterSpace | main.py:129-130 | leading whitespace (`^\s*`) contributes no token |
| Text.TokensOfLayout | main.py:129-130 | words with any whitespace in front, at least one whitespace character between any two, and any whitespace after them tokenise to exactly those words |
| Text.LayoutOfTokens | main.py:129-130 | every text is its tokens laid out that way: leading whitespace, then each token followed by its run of whitespace, every run but the last non-empty, so the tokens are the maximal non-whitespace runs |
| Text.TokensOfUnwords | main.py:129-130 | the tokens of words separated by single spaces are exactly those words |
| Text.Lower | main.py:129-130 | the result is never an upper-case ASCII letter, and it is the input or the input's lower-case letter |
| Text.LowerAgree | main.py:129-130 | two characters agree ignoring case exactly when they are equal or one is the upper-case letter of the other |
| Text.SameIgnoringCase | main.py:129-130 | the `re.IGNORECASE` comparison of a keyword: equal length and equal characters after lower-casing; `LowerAgree` and `SameIgnoringCaseIsEquivalence` state its meaning |
| Text.SameIgnoringCaseIsEquivalence | main.py:129-130 | equality ignoring case is reflexive, symmetric and transitive |
| Network.EmptyIsValid | main.py:13-21 | a new network satisfies the invariant: duplicate-free parent lists, instances are the entities with a class, and edge ends and classes of instances are catalogued classes |
| Network.ParentsOf | main.py:58 | `parents.get(c, ())`: the declared parents, or none; `ValidParents` states that they form a set of classes |
| Network.Holds | main.py:55 | the test `attr in self.attrs.get(c, {})`: the node has the attribute in its own table; the same test is made at `main.py:67` and `main.py:75` |
| Network.ValidParents | main.py:24-27 | in a valid network the parents of any entity are duplicate-free, as a set is, and are all catalogued classes |
| Network.ValidInstanceHasClass | main.py:29-32 | in a valid network every instance has a class, and that class is catalogued |
| Network.AddIsA | main.py:24-27 | the child's parents become the old parents plus `parent`; nobody else's parents change; both ends join `classes`; the other fields are unchanged; the invariant is kept |
| Network.AddInstance | main.py:29-32 | the class of `inst` becomes `klass`, overwriting any earlier one; `inst` joins `instances` and `klass` joins `classes`; nothing else changes; the invariant is kept |
| Network.AddAttribute | main.py:34-35 | `entity` now has `value` for `attr`; every other entity and attribute pair keeps its value; `entity` becomes an attribute holder; the invariant is kept |
| Network.AddIsAIdempotent | main.py:24-27 | declaring the same is-a edge twice is the same as declaring it once |
| Network.AddInstanceIdempotent | main.py:29-32 | declaring the same instance twice is the same as declaring it once |
| Network.AddAttributeIdempotent | main.py:34-35 | declaring the same attribute value twice is the same as declaring it once |
| Network.AddAttributeLastWins | main.py:34-35 | a second value for the same entity and attribute replaces the first |
| Network.AllEntities | main.py:38-40 | the entities are listed strictly increasing (each once) and are exactly the classes, instances and attribute holders |
| Network.AllEntitiesIsTheSortedListing | main.py:38-40 | every strictly increasing listing of those entities equals `AllEntities` |
| Inheritance.Unvisited | main.py:58-60 | the parents that get queued are exactly those not yet visited |
| Inheritance.Search | main.py:49-61 | the `while q` loop as a recursive function; its outcome is stated by `SearchFindsNearest` and `SearchResolves` |
| Inheritance.ValidNodesAreEntities | main.py:63-78 | in a valid network every node of the is-a graph is listed by `all_entities`, and so is every start `get_effective_attr` searches from: the class of an instance, or a class or attribute holder itself |
| Inheritance.ValidSearchStaysInEntities | main.py:49-61 | in a valid network every node reachable by parent edges from a listed entity is itself listed, so the search visits only entities `all_entities` lists |
| Inheritance.ValidInstanceSearch | main.py:66-70 | in a valid network an instance without its own value always searches from its class, never from nothing |
| Inheritance.SearchResolves | main.py:47-61 | the search from the class alone returns nothing exactly when no node reachable by parent edges holds the attribute; otherwise it returns the value of a holder at least distance |
| Inheritance.SearchFindsNearest | main.py:50-61 | from every queue state that satisfies the level invariant, the loop's outcome is nothing exactly when no reachable node holds the attribute, and otherwise a nearest holder's value |
| Inheritance.ChainLookup | main.py:43-61 | a missing or empty class gives nothing; otherwise the result is nothing if and only if no reachable node holds the attribute, and a value is always held by a nearest holder |
| Inheritance.EffectiveAttr | main.py:63-80 | an unknown entity has no value, and a direct value always wins. An instance without one resolves from its class only. A class or attribute holder without one resolves from itself |
| SemanticNetwork.SemanticNet.constructor | main.py:13-21 | the new object models the empty network and satisfies the invariant |
| SemanticNetwork.SemanticNet.AddIsA | main.py:24-27 | the new state is `Network.AddIsA` of the old one, and the invariant is kept |
| SemanticNetwork.SemanticNet.AddInstance | main.py:29-32 | the new state is `Network.AddInstance` of the old one, and the invariant is kept |
| SemanticNetwork.SemanticNet.AddAttribute | main.py:34-35 | the new state is `Network.AddAttribute` of the old one, and the invariant is kept |
| SemanticNetwork.SemanticNet.GetAttrFromClassChain | main.py:43-61 | the loop returns `ChainLookup`, which is correct in the sense of `Resolves`; it checks each node at most once, and every checked node is in the graph or is the start |
| SemanticNetwork.SemanticNet.GetEffectiveAttr | main.py:63-80 | the result is `EffectiveAttr` of the current network, and the network is unchanged |
| SemanticNetwork.AppendUnvisited | main.py:58-60 | the queue gains, in order, exactly the parents not yet visited |
| Facts.MatchFact | main.py:83-89 | `FACT_RE.match` on a stripped line: the keyword tried in pattern order and the text inside the parentheses; its meaning is stated by `MatchFactSound`, `MatchFactComplete` and `NoMatchIffNoShape` |
| Facts.MatchFactSound | main.py:83 | a line the pattern accepts is a keyword, optional whitespace, `(`, non-empty text without a line break, and a final `)` |
| Facts.MatchFactComplete | main.py:83 | every line of that shape is accepted, with that keyword and that inner text |
| Facts.ParseFact | main.py:85-105 | nothing results exactly for blank and comment lines, and every error carries the stripped line |
| Facts.ParseFactOfStripped | main.py:86 | parsing a stripped line is the same as parsing the raw line |
| Facts.InvalidLineIffNoMatch | main.py:86-91 | the invalid-line error arises exactly when the stripped line is neither blank nor a comment and the pattern rejects it |
| Facts.NoMatchIffNoShape | main.py:83 | the pattern rejects a line exactly when it has no keyword-parenthesis shape |
| Facts.MatchFactOnly | main.py:83 | when the parenthesised part follows exactly one keyword, the pattern reports that keyword |
| Facts.InvalidLineExactly | main.py:87-91 | the invalid-line error arises exactly for non-blank, non-comment lines that do not have the fact shape |
| Facts.ParseRendered | main.py:92-105 | a well-formed line with clean arguments gives the fact when the argument count is 2 (is-a, instance) or 3 (attribute), and the wrong-count error otherwise |
| Facts.ParseRender | main.py:85-105 | the canonical line of a fact with clean arguments parses back to that fact |
| Facts.ParsedIsClean | main.py:93 | every argument of a parsed fact is trimmed and contains neither a comma nor a line break |
| Facts.ParseNormalForm | main.py:85-105 | re-rendering a parsed fact and parsing it again gives the same result |
| Facts.ErrorMessage | main.py:91-104 | the error text ends with the offending stripped line |
| Facts.Apply | main.py:117-125 | dispatching a fact to its builder keeps the invariant |
| Facts.ApplyIdempotent | main.py:117-125 | applying the same fact twice is the same as applying it once |
| Facts.LoadLine | main.py:111-125 | one line fails exactly when `parse_fact` refuses it, and with the same error |
| Facts.LoadLineTwice | main.py:111-125 | loading the same line twice in a row is the same as loading it once |
| Facts.LoadLineKeepsValid | main.py:111-125 | loading a line keeps the invariant |
| Facts.LoadFrom | main.py:110-125 | the load loop as a fold over the lines; its outcome is stated by `LoadFailsAtFirstBadLine`, `LoadSucceedsIffAllParse`, `LoadConcat` and `LoadRenderAll` |
| Facts.LoadFailsAtFirstBadLine | main.py:110-114 | loading fails with error `e` exactly when some line raises `e` and every earlier line parses |
| Facts.LoadSucceedsIffAllParse | main.py:110-114 | loading succeeds exactly when every line parses |
| Facts.FirstBad | main.py:110-114 | a refused line has a first refused line at or before it |
| Facts.LoadKeepsValid | main.py:107-126 | a successful load keeps the invariant |
| Facts.LoadConcat | main.py:110-125 | loading `a + b` is loading `a` and then, if that succeeded, loading `b` from the result |
| Facts.LoadIgnoresBlank | main.py:111-113 | a blank or comment line anywhere in the file does not change the outcome |
| Facts.LoadRepeatedLine | main.py:110-125 | a line repeated directly after itself has the effect of that line once |
| Facts.LoadRenderAll | main.py:107-126 | a file of canonical lines for facts with clean arguments loads to those facts applied in order |
| Loader.LoadLines | main.py:107-126 | the loop fails exactly when the load fold fails, and with its error; on success it returns a new object whose state is the folded network and which satisfies the invariant |
| Loader.ApplyFact | main.py:117-125 | the object's new state is `Apply` of the old one, and the invariant is kept |
| Queries.Subject | main.py:129 | a subject is the token without its final `?` and is never empty; from a whitespace-free token it is a word, and every word followed by `?` gives that word |
| Queries.ParseQuery | main.py:129-130 | the recognised attribute, entity and value are non-empty runs of non-whitespace; the four lemmas below state which texts are recognised, in both directions |
| Queries.AttrQueryComplete | main.py:129 | `atributo X de Y?` with either keyword in any letter case, any leading and trailing whitespace and any non-empty whitespace between the parts is recognised as attribute `X` of `Y` |
| Queries.AttrQuerySound | main.py:129 | a query recognised as attribute `X` of `Y` is exactly such a text: its keywords equal `atributo` and `de` ignoring case, and only whitespace lies around and between the parts |
| Queries.ValueQueryComplete | main.py:130 | `clases o instancias con atributo X y valor Z?` with all seven keywords in any letter case and the same freedom of whitespace is recognised as attribute `X` with value `Z` |
| Queries.ValueQuerySound | main.py:130 | a query recognised as attribute `X` with value `Z` is exactly such a text |
| Queries.AttrQueryRecognised | main.py:129 | the single-spaced form of the first question, with either keyword in any letter case, is recognised |
| Queries.ValueQueryRecognised | main.py:130 | the single-spaced form of the second question, with its keywords in any letter case, is recognised |
| Queries.LeadingSpaceIgnored | main.py:129-130 | leading whitespace does not change how a query is recognised |
| Queries.Filter | main.py:144-148 | an entity is kept exactly when it is listed and its effective value equals the asked value; increasing order is preserved |
| Queries.MatchingEntities | main.py:143-148 | the matches are increasing and are exactly the known entities whose effective value equals the asked value |
| Queries.MatchingEntitiesUnique | main.py:143-148 | the matches are the only increasing listing of those entities |
| Queries.Respond | main.py:132-153 | the help text comes exactly for unrecognised queries. A first-shape question gets its entity's effective value, or "no value" exactly when it has none. A second-shape question gets "no matches" only when no entity has the value, and otherwise the sorted, non-empty list of all matching entities |
| Queries.ScanMatches | main.py:143-148 | the loop over `all_entities` calling `get_effective_attr` collects exactly `MatchingEntities`, without changing the network |
| Queries.JoinComma | main.py:151 | `", ".join(matches)`; `JoinCommaAsJoin` and `JoinCommaReadBack` state its meaning |
| Queries.JoinCommaAsJoin | main.py:151 | joining with `", "` is joining with `","` after putting a space in front of every name but the first |
| Queries.JoinCommaReadBack | main.py:151 | names that are trimmed and comma-free, as every name from a fact line is, are recovered from the listing by splitting at the commas and stripping |
| Queries.AnswerQuery | main.py:132-153 | the reply is the message for `Respond`'s answer on the current network, which is unchanged |
| Scenarios.ClosedRegionNotFound | main.py:47-61 | when the start lies in a parent-closed region where nothing holds the attribute (a cycle, for instance), the search ends with nothing |
| Scenarios.MutualCycleNotFound | main.py:63-77 | when two entities are each other's only parent and hold nothing, the first of them gives nothing, without looping, provided it is not an instance (an instance searches from its class instead) |
| Scenarios.NearestValueWins | main.py:47-61 | when every holder at the least distance has the value `v`, the search returns `v` |
| Scenarios.InheritsFromParent | main.py:47-61 | a class without its own value and with a parent that holds one returns the value of one of its parents |
| Scenarios.DiamondPicksAParent | main.py:72-77 | a named class that is not an instance, holds nothing itself, and whose only parents are `b` and `c`, which hold `v1` and `v2`, resolves to `v1` or `v2` |
| Scenarios.DogFactsLoad | main.py:107-126 | the canonical lines of the four example facts (arguments separated by a bare comma, as in `es_un(Dog,Animal)`) load to the example network |
| Scenarios.DogSounds | main.py:63-77 | Rex's own `woof` shadows the inherited value; Dog inherits `generic` from Animal |
| Scenarios.DogGenericMatches | main.py:143-148 | the entities that sound `generic` are exactly Animal and Dog, in that order |
| Scenarios.SoundReply | main.py:133-139 | the single-spaced question for the sound of Rex or Dog is answered with its effective value |
| Scenarios.RexSoundReply | main.py:133-139 | `atributo sound de Rex?` is answered with `woof` |
| Scenarios.DogSoundReply | main.py:133-139 | `atributo sound de Dog?` is answered with `generic` |
| Scenarios.GenericSoundReply | main.py:141-151 | `clases o instancias con atributo sound y valor generic?` is answered with the matches Animal and Dog |

## Left out

- The command-line entry point `main()` (`main.py:156-186`) is not modelled. That covers the argument check, the prompt loop, the exit words, the printing, and catching a failed file read. All of it is I/O.
- Opening and decoding the file in `load_file` is I/O and is not modelled. `Loader.LoadLines` takes the file's lines as a sequence of strings.
- The line number from `enumerate` (`main.py:110`) is never used by the code. Errors carry only the stripped line's text.
- Python sets have no fixed iteration order. Each entity's parents are modelled as a duplicate-free sequence in declaration order. No contract depends on that order: `Resolves` allows any nearest holder. Which parent wins a diamond is therefore left open, as it is in the program.
- Whitespace is the six characters of Python's `string.whitespace` (space, tab, line feed, carriage return, vertical tab, form feed), for `str.strip` and for `\s`/`\S` in the patterns. Python's `str.strip()` and `\s` also take the ASCII separators U+001C to U+001F and further Unicode whitespace such as U+0085 and U+00A0; they are not modelled.
- Case-insensitive keyword matching folds ASCII letters only. The few non-ASCII letters that Python's `re.IGNORECASE` also equates with ASCII keyword letters are not modelled.
- Each query pattern is modelled as its whitespace-separated tokens (`Queries.ParseQuery`); no regular-expression engine is modelled. `Queries.AttrQuerySound`, `Queries.AttrQueryComplete`, `Queries.ValueQuerySound` and `Queries.ValueQueryComplete` state that this recognises exactly the texts the anchored patterns accept. The fact pattern is modelled by the explicit matcher `Facts.MatchFact`, whose shape is stated by `Facts.MatchFactSound` and `Facts.MatchFactComplete`.
- Queries.Message: it has no contract. It writes out the reply texts of `main.py:138-153`. It is used by `Queries.AnswerQuery`, whose row ties the reply to `Queries.Respond`.
- Facts.ErrorMessage: its contract states only that the text ends with the offending line. The fixed prefixes `Línea inválida: ` and `<keyword> requiere N argumentos: ` are written out in its body.
