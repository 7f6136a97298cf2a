# dry-interface resolution engine, modelled in Dafny

dry-interface builds polymorphic records on top of dry-struct and dry-types.
An abstract class lists concrete variants. An input is resolved by trying the
variants in turn, with no discriminator field, and the first one that builds
wins. The repository holds two designs of this engine, and they cannot be
loaded together. This model keeps them apart:

- **The fold design** (`Dry::Interface < Dry::Concrete`): `class_interface.rb`,
  `interfaces/unit.rb`, `interfaces/concrete.rb`.
  - An abstract class's variants are the user classes declared under its
    `Concrete`/`Abstract`/`Unit` markers, i.e. its grandchildren.
  - `order` may rank the variants.
  - `subtype` folds a `reduce` step over them. The first success wins.
    Otherwise one aggregate `MultipleError` goes to the error handler.
  - `to_s` renders `Name<[a | b]>`.
  - This is module `Resolver`. Unit-class scalar promotion is in `Promotion`.
- **The union design** (`Dry::Interface < Dry::Struct`): `interface.rb`,
  `interfaces/abstract.rb`, `interfaces/value.rb`.
  - A class's `type` is the union of its direct descendants' types.
  - `new` calls that union.
  - A `Value` class falls back to wrapping a scalar under its only attribute.
  - This is module `UnionDesign`, with the fallback in `Construct`.

Shared by both designs:

| module | what it models |
|---|---|
| `Descriptors` | Descriptor-to-type translation (`to_type` in `extensions/type.rb`) |
| `Builder` | Attribute declaration: `build_type_from` in both files, plus aliases |
| `Defaults` | Default producers (`to_default`) and how a default interacts with constraints |
| `Construct` | Plain struct construction with a strict schema |
| `Values`, `Names`, `Schema`, `TypeLaws` | The data model: values, errors, results, names, nodes, type terms, and the laws of unions |

Classes form an explicit tree of `Schema.Node` values. The node kinds are
Root, Abstract, Concrete, Unit and Value. They stand for the classes Ruby
creates through `const_missing` and inheritance.

dry-types itself is not visible here. What a registry type such as
`coercible.symbol` makes of a value (the value it returns, possibly coerced,
or a refusal), whether a module or a class accepts a value, and whether a
constraint holds, are answered by the `Schema.Leaves` record. Every lemma is
passed that record as a parameter.

## Model

| member | source | states |
|---|---|---|
| Names.Demodulize | lib/dry/interface/interfaces/common.rb:10-12 | The short name has no `::`, and equals the qualified name when that has no `::` |
| Names.DemodulizeSuffix | lib/dry/interface/interfaces/common.rb:11 | The short name is a suffix of the qualified name |
| Names.DemodulizeDropsThroughLastSep | lib/dry/interface/interfaces/common.rb:11 | With a `::` in the name, the short name is everything after the last `::`: one sits just before it and none later |
| Names.DemodulizeSplits | lib/dry/interface/interfaces/common.rb:11 | With a `::` in the name, the qualified name is a prefix, `::`, and the short name |
| Names.DemodulizeExamples | lib/dry/interface/interfaces/common.rb:11 | `Shape::Circle` and `A::B::Circle` shorten to `Circle`; `A:::B` shortens to `B` |
| Names.JoinTwo | lib/dry/interface/class_interface.rb:35 | Joining two parts puts the separator between them once |
| Names.JoinContains | lib/dry/interface/class_interface.rb:35 | Every part occurs in the join, at the offset of the parts and separators before it |
| Names.DemodulizeIdempotent | lib/dry/interface/interfaces/common.rb:11 | Shortening an already short name changes nothing |
| Values.Handle | lib/dry/interface/class_interface.rb:56-59 | The default handler raises the error it receives; a caller's block turns it into a value |
| Values.Collect | lib/dry/interface/extensions/type.rb:209 | A Ruby `map` that stops at the first exception: succeeds exactly when every element does, keeps the values in order, and otherwise fails with the first element's error |
| Construct.RunSchema | lib/dry/concrete.rb:20 | The strict schema accepts exactly the hashes whose keys all name attributes and whose every attribute builds; the result has one pair per attribute, in declaration order |
| Construct.FirstUnknown | lib/dry/concrete.rb:20 | Finds a key that names no attribute, and finds none exactly when every key is known |
| Construct.ValueFallback | lib/dry/interface/interfaces/value.rb:11-19 | A class without exactly one attribute fails with an ArgumentError carrying the attribute count |
| Construct.Otherwise | lib/dry/interface.rb:78-82 | The fallback runs only when the schema fails; a schema success is returned as it is |
| Construct.Check | lib/dry/interface/extensions/type.rb:31-210 | `any` accepts everything; a literal accepts exactly itself; a registry type accepts exactly what the registry makes something of, returns that (possibly coerced) value, and otherwise raises a constraint error on the value; a literal, plain, module or class type returns the value itself or a constraint error; a struct class is called as a type (`Construct.StructCall`); collection types keep the length; an accepted constrained value meets every rule |
| Construct.StructCall | lib/dry/interface/interfaces/concrete.rb:23-30 | A struct class called as a type returns an instance of itself or of any class under it unchanged, and builds anything else with `new`; whatever it returns is an instance of a class under it |
| Construct.Field | lib/dry/concrete.rb:20 | One attribute of the strict schema: its key is the attribute's name; a present key succeeds, fails and holds values exactly as the attribute's type does on the supplied value, an absent key exactly as the missing-key rule does |
| Construct.Evaluate | lib/dry/concrete/extensions/default.rb:12-24 | A default is validated by calling the attribute's type on the value it produces |
| Construct.Missing | lib/dry/interface.rb:162-165 | An absent key is a missing-key error unless the type has a default, which is then produced and validated; a constrained success meets every rule |
| Construct.StructNew | lib/dry/interface/interfaces/concrete.rb:23-30 | `new`: an instance of the class itself comes back unchanged. For any other input the call succeeds exactly when the strict schema accepts the input (an instance's attributes for an instance), and the instance holds the schema's fields. A schema failure in the coercion family becomes a struct error carrying the input; any other propagates |
| TypeLaws.UnionAllFallsThrough | lib/dry/interface/extensions/type.rb:170 | When every member but the last turns the input down with a coercion-family error, the union answers as the last member |
| TypeLaws.UnionAllStopsAt | lib/dry/interface/extensions/type.rb:170 | A union answers as the first member, in list order, that accepts the input or raises an error outside the coercion family; later members are not tried |
| TypeLaws.UnionAllResolves | lib/dry/interface/extensions/type.rb:170 | A union answers as its first decisive member, or as its last when none is; it accepts exactly when that member accepts, and, when no member raises outside the coercion family, exactly when some member accepts |
| TypeLaws.UnionStopsAtArgumentError | lib/dry/interface/interfaces/value.rb:14-16 | An ArgumentError from a Value class in a union is not caught: the union raises it and never tries the next member, which would have accepted |
| TypeLaws.ArrayOfAccepts | lib/dry/interface/extensions/type.rb:209 | An array type accepts exactly the arrays whose every item its member type accepts, and holds the member type's value for each item; a rejection comes from the first failing item and is a constraint error on the array for a coercion-family error, and that item's own error otherwise |
| TypeLaws.MapOfWrapsCoercion | lib/dry/interface/extensions/type.rb:170 | A map type whose key and value types fail only with coercion-family errors rejects with a constraint error on the whole hash |
| Promotion.PromotingNew | lib/dry/interface/interfaces/unit.rb:32-44 | A hash goes to plain construction and any struct instance comes back as it is. A scalar is wrapped under the single attribute; zero or several attributes raise ArgumentError |
| Promotion.ScalarIsWrappedHash | lib/dry/interface/interfaces/unit.rb:39 | A scalar behaves exactly like the hash mapping the only attribute to it |
| Promotion.HashSkipsCountCheck | lib/dry/interface/interfaces/unit.rb:33-42 | Hash input never reaches the attribute-count check, so a multi-attribute class still builds from a hash |
| Promotion.ScalarReadsBack | lib/dry/concrete/value.rb:13 | A scalar the attribute's type accepts builds an instance holding exactly what the type makes of it under the attribute's name; a rejection is a struct error carrying the wrapped hash when it is in the coercion family, and the type's own error otherwise |
| Resolver.Order | lib/dry/interface/class_interface.rb:25-31 | The rank map's keys are exactly the listed names; each rank is an index of that name, and no later index holds the same name, so a repeated name keeps its last index |
| Resolver.Grandchildren | lib/dry/interface/class_interface.rb:82 | The variants are exactly the children of the children, each smaller than the class |
| Resolver.FlattenAppend | lib/dry/interface/class_interface.rb:82 | `flat_map` over two lists is the concatenation of the two results |
| Resolver.GrandchildrenInOrder | lib/dry/interface/class_interface.rb:82 | The variants are child by child, in child order: those under earlier children, then each child's own subclasses in their order, then those under later children, each once per occurrence |
| Resolver.SortBy | lib/dry/interface/class_interface.rb:86-88 | The sort is a permutation of its input and is ordered by the key |
| Resolver.Subtypes | lib/dry/interface/class_interface.rb:81-89 | With no order set, the variants come in discovery order. Otherwise they are a permutation sorted by rank, and listing fails with a KeyError exactly when some short name is unranked |
| Resolver.SearchPendingSpec | lib/dry/interface/class_interface.rb:38-50 | The search fails softly exactly when every variant is rejected. It then holds the original input and one error per variant, in attempt order, with struct errors re-wrapped |
| Resolver.SearchDoneSpec | lib/dry/interface/class_interface.rb:38-44 | A search that ends with a result got it from a variant all of whose predecessors were rejected |
| Resolver.SearchRaisedSpec | lib/dry/interface/class_interface.rb:38-50 | A search that ends with an exception got it, outside the coercion family, from a variant all of whose predecessors were rejected |
| Resolver.SearchStopSpec | lib/dry/interface/class_interface.rb:38-50 | A search that stops does so at the first variant not rejected, with its result or its unrecorded error |
| Resolver.Wrap | lib/dry/interface/class_interface.rb:45-49 | A struct error is recorded as a constraint error on the input, and any other error as it is; the recorded error is never a struct error and is in the coercion family exactly when the original was |
| Resolver.Call | lib/dry/interface/class_interface.rb:13-19 | A Concrete class gives a struct error for a scalar; a Unit class returns any instance; a leaf returns an instance of itself or of any class under it unchanged, and a Concrete or Value class only ever returns such an instance; a dispatching class fails with the listing error when its variants cannot be listed |
| Resolver.Reduce | lib/dry/interface/class_interface.rb:38-50 | A finished state passes through. From a pending state the step finishes exactly when the variant builds, stays pending exactly when it fails with a coercion-family error (adding one error, keeping the earlier ones and the input), and otherwise records the exception |
| Resolver.Fold | lib/dry/interface/class_interface.rb:65 | A finished state passes through; a state still pending at the end holds the input and one more error per variant after the earlier ones; an exception reached during the fold is never a coercion-family error |
| Resolver.Dispatch | lib/dry/interface/class_interface.rb:55-76 | A listing error propagates; no variants raise NotImplementedError; with a rescuing handler the only exceptions left are outside the coercion family |
| Resolver.FoldIsSearch | lib/dry/interface/class_interface.rb:65 | The fold of `reduce` over the variants equals the direct first-success search, after the errors already collected |
| Resolver.DispatchIsSearch | lib/dry/interface/class_interface.rb:55-76 | `subtype` is the search's success, its exception, or its errors handed to the handler as one aggregate error |
| Resolver.FirstSuccessWins | lib/dry/interface/class_interface.rb:65-69 | The earliest variant that builds gives the result, whatever the handler, once all earlier variants were rejected |
| Resolver.LaterVariantsIgnored | lib/dry/interface/class_interface.rb:39-41 | Appending variants after the first success changes nothing |
| Resolver.AllFailAggregates | lib/dry/interface/class_interface.rb:45-71 | When every variant is rejected, the handler receives one aggregate with exactly one error per variant, in order, each the attempt's own error with struct errors re-wrapped |
| Resolver.AllFailRaises | lib/dry/interface/class_interface.rb:57-71 | With the default handler that aggregate is raised |
| Resolver.SuccessComesFromVariant | lib/dry/interface/class_interface.rb:65-69 | Under the default handler a success is some variant's own result, all earlier variants having been rejected |
| Resolver.UnrecordedErrorAborts | lib/dry/interface/class_interface.rb:45-49 | An error outside the coercion family is some variant's own error. Every earlier variant was rejected, and the handler never sees it |
| Resolver.NoSubtypesNotImplemented | lib/dry/interface/class_interface.rb:61-63 | A class without variants raises NotImplementedError and does not consult the handler |
| Resolver.LeafIgnoresVariants | lib/dry/interface/interfaces/unit.rb:9-15 | Concrete, Value and Unit classes never dispatch: an instance of a class under them passes through, and any other input is built exactly as if nothing were declared under them |
| Resolver.ConcreteRejectsScalar | spec/dry/interface/integration/concrete_spec.rb:28-33 | A Concrete class does not promote: a scalar is a struct error carrying the input |
| Resolver.UnitKeepsInstances | lib/dry/interface/interfaces/unit.rb:35 | A Unit class returns a struct instance of any class unchanged |
| Resolver.Render | lib/dry/interface/class_interface.rb:35 | The rendering starts with `Name<[`, ends with `]>`, gives `Name<[]>` for no parts, brackets a single part, and puts `" \| "` between the first part and the join of the rest |
| Resolver.RenderContains | lib/dry/interface/class_interface.rb:35 | Every part occurs in the rendering after the opening bracket, at its offset in the join |
| Resolver.ToS | lib/dry/interface/class_interface.rb:34-36 | A non-dispatching class shows its short name. A dispatching one renders exactly when all its variants render, and fails with the listing error when they cannot be listed |
| Resolver.ToSRenders | lib/dry/interface/class_interface.rb:35 | A dispatching class renders as `Render` over its variants' renderings, in resolution order |
| Resolver.SingleVariantRendering | lib/dry/interface/class_interface.rb:35 | One variant renders as that variant's rendering in brackets |
| Resolver.RenderTwo | lib/dry/interface/class_interface.rb:35 | Two parts render as `Name<[a \| b]>` |
| Resolver.TwoVariantRendering | lib/dry/interface/class_interface.rb:35 | Two variants render as `Name<[a \| b]>`, in resolution order |
| Resolver.ToSIncludesVariants | lib/dry/interface/class_interface.rb:35 | A rendered class's text contains the rendering of each of its variants |
| Resolver.ExampleSubtypes | spec/dry/interface/integration/abstract_spec.rb:62-75 | In the example hierarchy, Person's only variant is Runner, and Runner's only variant is Slow |
| Resolver.RunnerRendering | spec/dry/interface/integration/abstract_spec.rb:62-75 | Runner renders as `Runner<[Slow]>` |
| Resolver.NestedRendering | spec/dry/interface/integration/abstract_spec.rb:62-75 | Person renders as `Person<[Runner<[Slow]>]>` |
| UnionDesign.MemberTypes | lib/dry/interface.rb:61 | The descendants' types are known exactly when every descendant's type is; descendants without a type are skipped |
| UnionDesign.TypeWith | lib/dry/interface/interfaces/abstract.rb:11-13 | An Abstract class with no descendants raises a RuntimeError; an Abstract class's type is never nil. As intended a leaf's type is the leaf itself; as written a leaf has none |
| UnionDesign.TypeOf | lib/dry/interface.rb:60-61 | Corrected `type`: a leaf is its own struct type; a class with typed descendants is the union of their types; a failing descendant type propagates; an Abstract class without descendants raises |
| UnionDesign.TypeAsWritten | lib/dry/interface.rb:60-61 | `type` as written: a non-Abstract class without descendants has none, and an Abstract one raises; a class with typed descendants is the union of their types |
| UnionDesign.NewWith | lib/dry/interface.rb:68-72 | With no type, `new` is plain construction; a failing type lookup propagates |
| UnionDesign.InterfaceNew | lib/dry/interface.rb:68-72 | Corrected: a leaf builds by plain construction; an Abstract class without descendants raises its RuntimeError; a root without descendants builds itself |
| UnionDesign.InterfaceNewAsWritten | lib/dry/interface.rb:68-72 | As written: a class without descendants builds itself unless it is Abstract, which raises its RuntimeError |
| UnionDesign.NewPicksFirstDecisive | lib/dry/interface.rb:68-72 | A dispatching class answers as its first descendant type that accepts the input or raises outside the coercion family, or as the last when none does; it builds exactly when that type accepts, and, when none raises, exactly when some descendant type accepts |
| UnionDesign.LeafMemberTypes | lib/dry/interface.rb:61 | As intended, descendants that are leaves contribute their own struct types, one each, in order |
| UnionDesign.NewPicksFirstLeaf | lib/dry/interface.rb:68-72 | Over leaves, `new` is the struct call of the first leaf that builds or raises outside the coercion family, all earlier leaves having turned the input down softly |
| UnionDesign.AsWrittenLeavesHaveNoType | lib/dry/interface/interfaces/abstract.rb:12 | As written, an Abstract class over leaves raises; as intended it has a type |
| UnionDesign.AsWrittenRootBuildsItself | lib/dry/interface.rb:68-69 | As written, a root over leaves ignores them and builds itself |
| UnionDesign.AsWrittenRejectsCircle | lib/dry/interface.rb:60-72 | `{radius: 1}` builds a Circle as intended, but as written it is a struct error of the root Shape |
| UnionDesign.Named | lib/dry/interface.rb:64-66 | `named` starts with the display name and `<[`, ends with `]>`, and is `Name<[]>` without descendants |
| UnionDesign.NamedAll | lib/dry/interface.rb:65 | `map(&:named)`: one name per descendant, in order |
| UnionDesign.NamedUnfold | lib/dry/interface.rb:64-66 | A name is the display name around the `" \| "` join of the descendants' names |
| UnionDesign.NamedOneDescendant | lib/dry/interface.rb:64-66 | A single descendant's name is shown alone in the brackets |
| UnionDesign.NamedTwoDescendants | lib/dry/interface.rb:64-66 | Two descendants' names are joined by `" \| "` in descendant order |
| UnionDesign.NamedIncludesDescendants | lib/dry/interface.rb:64-66 | Every descendant's name occurs in the class's name |
| UnionDesign.ValueWrapsScalar | lib/dry/interface/interfaces/value.rb:18 | A non-hash for a one-attribute class is retried under the only attribute: when the attribute's type accepts it, the result is the one-entry hash of what the type makes of it; otherwise the type's error goes to the handler |
| UnionDesign.FallbackForwardsHandler | lib/dry/interface/interfaces/value.rb:18 | When the wrapped retry fails too, its error goes to the caller's handler |
| UnionDesign.FallbackNeedsOneAttribute | lib/dry/interface/interfaces/value.rb:14-16 | A class without exactly one attribute raises ArgumentError with the count, whatever the handler |
| UnionDesign.FallbackNames | lib/dry/interface/interfaces/value.rb:12 | `type.attribute_names` answers only for a struct class, with its attribute names; on nil or another type it is a NameError, and a failing type lookup propagates |
| UnionDesign.FallbackWith | lib/dry/interface/interfaces/value.rb:11-19 | The fallback fails as the name lookup does, and with the class's own struct type as the type it is `ValueFallback` |
| UnionDesign.OtherwiseAsWritten | lib/dry/interface.rb:78-82 | As written, a schema success is the same as in the corrected `otherwise` |
| UnionDesign.CorrectedFallbackReadsOwnNames | lib/dry/interface/interfaces/value.rb:12 | Corrected: a Value class's fallback reads its own attribute names, as `ValueFallback` does |
| UnionDesign.AsWrittenValueRejectsScalar | lib/dry/interface/interfaces/value.rb:12 | As written, a Value class without descendants fails every input its schema rejects with the NameError of `nil.attribute_names`, whatever the handler |
| UnionDesign.AgeFromScalar | lib/dry/interface/interfaces/value.rb:11-19 | `Age.new(1)` fails as written and, corrected, holds `1` under `value` |
| Descriptors.EntryType | lib/dry/interface/extensions/type.rb:170 | A hash entry translates exactly when its key and value do, to a map type; failures are ArgumentErrors |
| Descriptors.ToType | lib/dry/interface/extensions/type.rb:31-210 | Failures are always ArgumentErrors: unknown references and objects that are not descriptors. A type maps to itself; a known reference maps to its registry type; a module to the type of its includers; a known class to its registered type, and any other class to the union of its instances and its constructor; empty hash and array descriptors give the plain Hash and Array types |
| Descriptors.ArrayDescShape | lib/dry/interface/extensions/type.rb:206-210 | A non-empty array descriptor translates exactly when all items do, to the array of their union |
| Descriptors.HashDescShape | lib/dry/interface/extensions/type.rb:167-171 | A non-empty hash descriptor translates exactly when all entries do, to the union of their map types |
| Descriptors.HashEntryFailureFails | lib/dry/interface/extensions/type.rb:170 | One untranslatable key or value fails the whole hash descriptor |
| Descriptors.ArrayItemFailureFails | lib/dry/interface/extensions/type.rb:209 | One untranslatable item fails the whole array descriptor |
| Descriptors.RawSymbolInHashFails | spec/dry/interface/integration/interface_spec.rb:188-194 | A raw symbol as a hash key or value raises ArgumentError |
| Descriptors.ToTypeIdempotent | lib/dry/interface/extensions/type.rb:84 | Translating a translated type again gives the same type |
| Descriptors.ArrayOfUnionAccepts | lib/dry/interface/extensions/type.rb:209 | An array of a union accepts exactly the arrays each of whose items the union accepts; when no member raises outside the coercion family, exactly those each of whose items some member accepts |
| Descriptors.ArrayDescAccepts | lib/dry/interface/extensions/type.rb:206-210 | An array descriptor accepts exactly the arrays each of whose items the union of its members accepts (some member, when none raises outside the coercion family); an empty descriptor accepts any array |
| Descriptors.ArrayDescOnEmptyAndScalar | lib/dry/interface/extensions/type.rb:196-203 | Every array descriptor accepts `[]` and rejects anything that is not an array |
| Descriptors.MapOfAccepts | lib/dry/interface/extensions/type.rb:170 | A map type accepts exactly the hashes whose every key and value it accepts |
| Descriptors.HashDescAccepts | lib/dry/interface/extensions/type.rb:167-171 | A hash descriptor accepts a hash exactly when the union of its entries' map types does; when none raises outside the coercion family, exactly when one of them accepts all of it |
| Builder.UnionOfDescs | lib/dry/concrete.rb:101 | No descriptors give no type. Otherwise the result is the left-nested union of the translations in argument order, and any failure is an ArgumentError |
| Builder.BuildConcrete | lib/dry/concrete.rb:96-116 | A block gives one nested struct type, ignoring the options. No descriptors give nothing. Otherwise the result is `Compose`: the constraints around the default around the union. The recursion ends because every call carries fewer options |
| Builder.BuildInterface | lib/dry/interface.rb:157-173 | As in concrete.rb, except that no descriptors give `Compose` over the `any` type |
| Builder.BuildersAgree | lib/dry/interface.rb:157-173 | Given descriptors and no block, the two builders succeed together and build the same type |
| Builder.ReaderTarget | lib/dry/concrete.rb:90-92 | A reader named like an attribute reads that attribute; otherwise the reader is an alias listed on some attribute, and there is none exactly when no attribute has that name or alias |
| Builder.AliasOwner | lib/dry/concrete.rb:90-92 | Finds an attribute listing the alias, and finds none exactly when no attribute lists it |
| Builder.Read | lib/dry/concrete.rb:90-92 | An undefined reader is a NameError; a successful read is the instance's value under the reader's field |
| Builder.WithAttribute | lib/dry/concrete.rb:68-72 | A new field is appended; a field the class already has keeps its place and its aliases and takes the new type; every other attribute is unchanged, and unique names stay unique |
| Builder.AttachDeclares | lib/dry/concrete.rb:83-93 | Adding the attribute and then aliasing the field always succeeds and declares the attribute with the aliases, keeping names unique |
| Builder.AttachAliases | lib/dry/concrete.rb:90-92 | No aliases change nothing. Aliasing to a reader that does not exist is a NameError. Otherwise only alias lists change |
| Builder.DeclareConcrete | lib/dry/concrete.rb:68-93 | The declaration succeeds exactly when a block is given or the descriptors translate. The field gets the composed type (a block's nested struct type) and all aliases: a new field is appended, and a re-declared one keeps its place and earlier aliases. Every other attribute keeps its name and type, and its aliases unless it shares the field's name; nothing else about the class changes, and unique names stay unique |
| Builder.DeclareInterface | lib/dry/interface.rb:144-154 | Corrected: the declaration succeeds exactly when the type builds, and declares the field with that type and all aliases as in concrete.rb (appended, or overriding in place); unique names stay unique |
| Builder.DeclareInterfaceAsWritten | lib/dry/interface.rb:144-154 | As written: when it succeeds the type built, and the field, appended or in its old place, has that type |
| Builder.RedeclaredAttributeOverrides | spec/dry/interface/integration/abstract_spec.rb:195-219 | `RubyDeveloper` re-declaring its inherited `language` as the literal `"ruby"` keeps two attributes in their places and changes only that type |
| Builder.AliasReadsField | lib/dry/concrete.rb:90-92 | An alias that the class did not already have as an attribute name or alias reads the same value as the field it was declared for, new or re-declared |
| Builder.InterfaceAliasReadsField | lib/dry/interface.rb:151-153 | Corrected: an alias of the union design reads the same value as its field |
| Builder.AliasIsNotAKey | lib/dry/concrete.rb:20 | An input that uses an alias as a key is rejected by the strict schema |
| Builder.UnnamedKeyRejected | lib/dry/concrete.rb:20 | The strict schema rejects a hash with a key that names no attribute |
| Builder.AsWrittenAliasFails | lib/dry/interface.rb:151-153 | As written, an aliased attribute on a class without a reader named like the class raises a NameError; the corrected declaration succeeds |
| Builder.AsWrittenAliasExample | lib/dry/interface.rb:151-153 | `Person` declaring `name` with alias `nick` fails as written and succeeds corrected |
| Defaults.ProcAndFixedAgree | lib/dry/concrete/extensions/default.rb:12-24 | A proc default and a fixed default producing the same value validate it the same way, with the attribute's type |
| Defaults.VerbatimDefault | spec/dry/interface/unit/extensions/default_spec.rb:24-62 | A default of the right type comes back unchanged; one the type rejects is a constraint error |
| TypeLaws.VerbatimRejectsWithConstraint | lib/dry/interface/extensions/type.rb:31-210 | A type that hands accepted values back unchanged rejects only with constraint errors |
| Defaults.ComposedCheck | lib/dry/interface.rb:162-172 | A supplied value goes through the base type and then the constraints; the default plays no part |
| Defaults.ComposedMissing | lib/dry/interface.rb:162-165 | An absent key takes the default, validated by the base type and the constraints; without a default it is a missing key |
| Defaults.AttributeWithDefault | spec/dry/interface/integration/interface_spec.rb:5-73 | A present key is validated normally; an absent key yields the validated default |
| Defaults.ListFieldDeclared | spec/dry/interface/integration/interface_spec.rb:87 | `attribute :field, [String], min_size: 1, default: ["string"]` builds `min_size` around the default around `Array(string)` |
| Defaults.ListFieldDefault | spec/dry/interface/integration/interface_spec.rb:90-98 | With the key absent the field holds the default list, when the `string` type keeps the string it is given |
| Defaults.ListFieldRejectsEmpty | spec/dry/interface/integration/interface_spec.rb:100-106 | A supplied `[]` is rejected by the constraint although the array type accepts it |
| Defaults.ListFieldKeepsSupplied | spec/dry/interface/integration/interface_spec.rb:100-101 | A supplied list of strings that the `string` type keeps is kept, not replaced by the default |
| Defaults.ListFieldRejectsSymbol | spec/dry/interface/integration/interface_spec.rb:108-110 | A list holding a symbol that the `string` type refuses is rejected |

## Left out

- Ruby metaprogramming is replaced by an explicit tree of nodes with kinds.
  - Left out: `const_missing` (class_interface.rb:94-111, interface.rb:125-142), `delegate`, refinements, ActiveSupport concerns, descendant tracking, configuration and the constant copying at interface.rb:38-42.
  - The aliases of `call`, `call_safe` and `call_unsafe` are modelled once, as `Resolver.Call`. The safe and unsafe entry points are not told apart.
- `attribute?` (optional attributes) is left out. It builds its type exactly as `attribute` does, and optional keys are dry-struct's business.
- dry-types and dry-struct are not part of this model.
  - What a registry type makes of a value (with coercion), module and class membership, and predicates such as `min_size` are the `Leaves` oracle.
  - Plain construction is an assumption about dry-struct:
    - `new` (`Construct.StructNew`) returns an instance of the class itself as it is and re-validates an instance of any other class from its attributes;
    - `call` (`Construct.StructCall`) returns an instance of the class or of any class under it (`is_a?`) as it is, and otherwise calls `new`;
    - a hash goes through the strict schema;
    - a failure in the coercion family becomes a struct error.
  - Which errors belong to the coercion family is also an assumption about those libraries. `Values.IsCoercion` lists them.
- An attribute declared in concrete.rb with neither descriptors nor block leaves dry-struct without a type. `Builder.DeclareConcrete` refuses it with an ArgumentError; the exact behaviour belongs to dry-struct.
- Aliases: redefining a reader, and aliasing one alias to another, are not modelled beyond `Builder.ReaderTarget`. It finds an attribute by name first, then by the first attribute that lists the alias.
- The `in Dry::Struct` branch of `subtype` (class_interface.rb:72-73) is unreachable: the fold state is always a hash. It is left out.
- Tie order in `sort_by` is left out, because Ruby's sort is not stable.
  - Resolver.SortBy: states a permutation sorted by rank, but not which of two equally ranked variants comes first.
- A proc default is re-run on every construction. In a pure model a producer is one value (`DefaultSpec.Proc`), so the absence of caching cannot be observed.
- Error messages are not modelled, only error kinds and the data they carry.
- Floating point, and the specs that use `Float`, are left out.
- Termination of `ToS` and of the fold rests on the class tree being finite. Cyclic hierarchies cannot be expressed.
- UnionDesign.MemberTypes: in the union design a descendant whose type is nil is skipped. Ruby's `reduce(&:|)` would call `|` on nil; the model treats such a descendant as contributing nothing.
- In the union design a Unit-kind node is treated as a leaf. The union design has no Unit marker.
- In the union design the anonymous marker classes that `const_missing` creates (interface.rb:128-137) are not nodes: a leaf hangs directly under its interface class. In Ruby the marker itself is a direct descendant; with the correction it would take the leaf's place in the union, and a marker has no attributes. The correction also takes a leaf's `call` to be plain construction: a literal `type` returning `self` would send `new` back through interface.rb:68-72.
- Builder.DeclareInterface: a block passed to `attribute` (interface.rb:110-113) goes to dry-struct's nested-struct builder, which is not modelled; the declaration is modelled for descriptors only.
- Nodes carry the effective class configuration: `order` is the class's own `config.order` or the one inherited from its nearest ancestor (class_interface.rb:9, 30), and `attrs` includes inherited attributes. How Ruby computes that inheritance is not modelled.
- Construct.Check: a value a registry type refuses is always a constraint error. In dry-types a `coercible` type that cannot coerce raises a CoercionError instead; both are in the coercion family, so unions, the fold and struct construction treat them alike, but the error kind differs.
- dry-struct raises RepeatedAttributeError when a class declares the same attribute twice itself. Nodes do not tell a class's own attributes from inherited ones, so `Builder.DeclareConcrete` and `Builder.DeclareInterface` treat every re-declaration as the override of an inherited attribute.

## Findings

| source | as written | input that shows it | evidently intended | confidence | as-written member | corrected member |
|---|---|---|---|---|---|---|
| lib/dry/interface.rb:60-61 | A Concrete or Value class has no descendants, so its `type` is nil; the `type → self` of interfaces/concrete.rb:12-14 is commented out | A root `Shape` with one Concrete `Circle` (attribute `radius`), given `{radius: 1}`: `Shape.new` finds no type and builds a Shape, which rejects the key | Probably that a leaf's type is the leaf's own struct class, so that the union over descendants resolves to Circle; the commented-out `type` suggests it, but the marker classes in between make the intent less certain | not executed | UnionDesign.AsWrittenRejectsCircle | UnionDesign.NewPicksFirstLeaf |
| lib/dry/interface.rb:151-153 | Each alias is made a copy of the method named like the class (`name`), not of the field | `Person` declaring `attribute :name, alias: :nick` has no reader called `Person`, so `alias_method` raises NameError | Each alias reads the field, as concrete.rb:91 does | not executed | Builder.AsWrittenAliasFails | Builder.InterfaceAliasReadsField |
| lib/dry/interface/interfaces/value.rb:12 | The fallback reads `child.type.attribute_names`, and a Value class's `type` is nil as written | `Age`, a Value class with the one attribute `value: integer`, given `1`: the schema rejects the scalar and `nil.attribute_names` raises NameError | The class's own attribute names, so `1` is wrapped as `{value: 1}` | not executed | UnionDesign.AsWrittenValueRejectsScalar | UnionDesign.CorrectedFallbackReadsOwnNames |

With the first finding as written, an Abstract class whose descendants are all
leaves raises its RuntimeError (`UnionDesign.AsWrittenLeavesHaveNoType`).
The third finding follows from the first: with the corrected type the fallback
reads the class's own attributes (`UnionDesign.AgeFromScalar` shows both).
`UnionDesign.TypeOf` and `UnionDesign.InterfaceNew` use the corrected type;
`UnionDesign.TypeAsWritten` and `UnionDesign.InterfaceNewAsWritten` keep the
code as written.
