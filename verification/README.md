# Donat: verified models of six cores

Donat turns GraphQL operations into SQL for four engines and runs connectors against remote providers. This project
models six of its algorithmic cores in Dafny and proves what each of them is for. `dafny verify dfyconfig.toml`
checks everything.

**Connector ABI** (`Wrappers`, `Utf8`, `Abi`, `FixedText`, `Ids`, `SafeMessage`, `TypedValues`, `Envelope`).
Values, headers, bindings and messages cross the connector boundary through bounded constructors. The value check is an
explicit-stack walk with three shared counters; the model is a class with those counters and a loop over the stack, and
it is proved to accept exactly what a recursive reading of the limits accepts. Texts are UTF-8 octets, and the octet
scan for control characters is proved to agree with the character-level rule. `canonical_size` is a parameter.

**Connector catalog** (`Collections`, `JsonPointer`, `Manifest`, `CatalogText`, `FactDomains`, `CatalogRules`,
`CatalogPasses`, `ManifestCheck`, `CatalogTheorems`, `ErrorMaps`, `AcceptedManifests`, `TextKinds`). The catalog
compiler is a pipeline of passes over a manifest; an older validator was written independently and compares
identifiers by text instead of by buffer. Each pass is a loop proved to decide its rule. Each rule is then stated
again by the manifest's own fields, without the collections and counts of the code. The compiler is proved to refine
the older validator, idempotency evidence is proved complete, and the order-sensitive derivation of fact domains is
characterised exactly. Value-contract hashing, selected-header derivation and source-record acceptance are parameters
(`CatalogRules.Environment`).

**SQL dialects** (`Quoting`, `Json`, `JsonTexts`, `Sql`, `Render`, `RenderTheorems`, `BuiltinObjects`, `RowOrder`,
`DialectAgreement`, `ColumnLists`, `Text`, `ClickHouseTypes`, `ClickHouseNames`). One tree of JSON objects, arrays and
scalars is rendered four ways: builtin calls, chunked `json_insert`, `||` text and `CONCAT` text. The renderings are
expressions of a small SQL language with a denotation, in which literals are read back through each dialect's own
escaping and a call with too many arguments fails; a row handed up from a row set is text in SQLite until `json(...)`
reads it. All dialects are proved to answer with the same ordered JSON. ClickHouse type names are handled as text.

**Rust scanner of the boundary script** (`RustBlank`, `RustBlankScan`, `RustBlankTheorems`, `RustLexemes`,
`RustLexemeTheorems`, `RustLexing`, `RustTokens`, `RustUse`, `RustUseScan`, `RustUseTheorems`). Comments and literals
are blanked in place over an array of octets, the rest is tokenized, and `use` trees are parsed by recursive descent
with a moving cursor. A grammar of comments and literals, written without the scan, says what blanking has to find.

**Action responses** (`TypeRefs`, `Action`, `ActionTheorems`, `ActionAnswers`). A handler's answer is checked and
projected against a declared type, possibly a recursive one, along the caller's selection.

**PDF receipt** (`Pdf`, `PdfTheorems`, `PdfReading`). A byte buffer with recorded offsets, and a reader that is given
the file alone and follows the cross-reference table, the trailer and the page tree to the loan.

Where code and comment disagree the model follows the code: the comment at `crates/backend/src/dialect.rs:372-375`
says that the order of MySQL's two replacements matters, and `Quoting.MySqlOrderIsIrrelevant` shows that it does not
(ClickHouse's order does). Some properties hold only under a condition, which is stated exactly: SQLite's wide object
(`BuiltinObjects.SqliteObjectEvaluates`, `BuiltinObjects.SqliteObjectIsWholeIff`), lists of bare columns
(`ColumnLists.ColumnListsAgreeIffNoNull`, `ColumnLists.SqliteColumnListsAgreeIffNoText`), the two scalar tables
(`ClickHouseTypes.ScalarTablesAgreeIff`), the integers of ClickHouse (`ClickHouseNames.IntegersFitIff`), the PDF's
cross-reference table (`PdfTheorems.TableIsExactIff`) and the loan in it (`PdfReading.ReceiptReads`).

## Model

| member | source | states |
|---|---|---|
| Ids.ValidId | crates/connector-abi/src/ids.rs:76-95 | the index loop accepts exactly the octet strings of the declarative identifier rule |
| Ids.CopyBytes | crates/connector-abi/src/ids.rs:42-54 | the buffer holds the source octets followed by zeros only |
| Ids.Parse | crates/connector-abi/src/ids.rs:28-35 | succeeds exactly on valid identifier texts and then holds their octets |
| Ids.HeldTextReadsBack | crates/connector-abi/src/ids.rs:37-40 | a buffer filled from a text reads back as that text, so the UTF-8 check never fails |
| Ids.SameIdIffSameText | crates/connector-abi/src/ids.rs:6-10 | derived equality is equality of texts, and the derived order is shortlex on their octets |
| FixedText.BuffersCompareAsTexts | crates/connector-abi/src/envelope.rs:27-32 | zero padding is invisible to derived equality and order, for any capacity: the shorter text, or the smaller at the first difference, comes first |
| FixedText.ShortLexIff | crates/connector-abi/src/ids.rs:6-10 | the derived order is by length and then by the first octet that differs |
| SafeMessage.ValidateSafeMessageBytes | crates/connector-abi/src/envelope.rs:72-100 | accepts exactly 1 to 1024 octets without control octets, with the error of the bound that failed |
| SafeMessage.ByteScanAgreesWithCharacters | crates/connector-abi/src/envelope.rs:72-119 | on the UTF-8 of any text the octet scan finds a control exactly when a character is a Unicode control |
| SafeMessage.TryCopy | crates/connector-abi/src/envelope.rs:51-69 | succeeds exactly on control-free texts of 1 to 1024 octets; the buffer holds and reads back the text |
| SafeMessage.TryNewBoundedString | crates/connector-abi/src/envelope.rs:106-119 | succeeds exactly within both bounds and without control characters, and keeps the text |
| TypedValues.Visit | crates/connector-abi/src/envelope.rs:591-637 | one turn loses and double-counts nothing, keeps the remaining verdict, and shrinks the nodes still pending |
| TypedValues.Expand | crates/connector-abi/src/envelope.rs:605-633 | pushing children keeps every pending total and the pending admissibility, or the value is inadmissible |
| TypedValues.Count | crates/connector-abi/src/envelope.rs:592-627 | the checked additions accept exactly when the mathematical sums fit their limits |
| TypedValues.PushMembers | crates/connector-abi/src/envelope.rs:612-620 | fails exactly on a name over 262144 octets; otherwise the stack gains the values in key order, one level deeper |
| TypedValues.ValidateTypedValueRoot | crates/connector-abi/src/envelope.rs:586-639 | terminates and accepts exactly the admissible trees whose totals still fit beside what was counted before |
| TypedValues.ValidateTypedValueRoots | crates/connector-abi/src/envelope.rs:576-584 | accepts exactly the lists whose trees are all admissible and whose three totals over all roots fit |
| TypedValues.RootOrderIsIrrelevant | crates/connector-abi/src/envelope.rs:576-584 | any rearrangement of the roots gets the same verdict |
| Envelope.ValidateHeaders | crates/connector-abi/src/envelope.rs:546-567 | despite early exits and checked additions, accepts exactly the mathematical bounds on count, values and total |
| Envelope.TryNewTypedBindings | crates/connector-abi/src/envelope.rs:311-329 | accepts exactly the slots within the count, tree and canonical-size bounds, and keeps them unchanged |
| Envelope.AuthorizeCorrelations | crates/connector-abi/src/envelope.rs:504-526 | succeeds exactly when the headers fit and the allowed list has at most 64 names, none repeated; the result is the selected headers restricted to that list |
| Envelope.ValidateResponse | crates/connector-abi/src/envelope.rs:528-544 | accepts exactly the responses within every transport bound |
| Envelope.HostTransportResponse | crates/connector-abi/src/envelope.rs:486-502 | succeeds exactly when the response fits and may be authorized; it carries the input and exactly those correlations |
| Envelope.FailureCarriesAuthorizedCorrelations | crates/connector-abi/src/envelope.rs:443-463 | a failure carries its class, code and message, reports only selected headers under allowed names, at most 64, or none, and a delay of at most a day |
| JsonPointer.ValidIffPrinted | crates/connector-catalog/src/model.rs:1921-1929 | a text is accepted exactly when it prints some list of reference tokens, and printing what it decodes to gives it back |
| JsonPointer.PrintReadsBack | crates/connector-catalog/src/model.rs:1921-1929 | decoding inverts printing for every list of tokens, `~` and `/` included |
| CatalogText.DnsNameIffLabels | crates/connector-catalog/src/model.rs:1906-1919 | a host is accepted exactly when it is 1 to 253 characters of valid labels with single dots between them |
| CatalogText.CatalogIdIff | crates/connector-catalog/src/model.rs:1882-1896 | the identifier rule on octets is the same rule read on characters |
| CatalogText.NamesAreNested | crates/connector-catalog/src/model.rs:1898-1960 | identifiers may stand as header names and query keys, those as tokens, tokens are visible ASCII and, with licenses, may stand as header values |
| CatalogText.LowercaseIff | crates/connector-catalog/src/model.rs:1948-1953 | no upper-case letter is exactly being left alone by lowering |
| CatalogText.PathIffSegments | crates/connector-catalog/src/model.rs:1931-1938 | a path is accepted exactly when it is a list of segments, each after a slash, none a dot or two and none holding a query, fragment or backslash mark |
| TextKinds.ManifestTextsIff | crates/connector-catalog/src/model.rs:1016-1269 | the text rules, listed by kind: identifiers, header and query names, pointers, tokens, requests and processor revisions, wherever each stands |
| Manifest.SameIdIffSameName | crates/connector-catalog/src/model.rs:326-335 | comparing `as_str` texts and comparing identifiers is one test |
| CatalogPasses.ValidateStepIdentity | crates/connector-catalog/src/model.rs:967-980 | accepts exactly when every operation's step identifiers are pairwise distinct |
| CatalogPasses.StepsAreDistinct | crates/connector-catalog/src/model.rs:968-977 | inserting step by step detects exactly a repeated identifier |
| CatalogPasses.BindFields | crates/connector-catalog/src/model.rs:1422-1446 | succeeds exactly when the fields are declared, distinct and unbound so far; the bound set grows by exactly them |
| CatalogPasses.ValidateRequestBindings | crates/connector-catalog/src/model.rs:1412-1448 | query, header and body fields together are distinct and declared |
| CatalogPasses.OriginsById | crates/connector-catalog/src/model.rs:1272-1276 | the map knows exactly the origin identifiers and finds an origin with each |
| CatalogPasses.ValidateOperationSteps | crates/connector-catalog/src/model.rs:1382-1393 | every step has a declared origin, a matching credential action and closed bindings |
| CatalogPasses.ValidateOperationOrigins | crates/connector-catalog/src/model.rs:1367-1381 | the map lookup decides whether each operation origin equals some declared manifest origin |
| CatalogPasses.ValidateOperationCredentials | crates/connector-catalog/src/model.rs:1353-1394 | decides whether some credential of the manifest resolves the reference and fits every step |
| CatalogPasses.CredentialsById | crates/connector-catalog/src/model.rs:1285-1351 | succeeds exactly when identities are distinct and each credential holds; the map then finds each by its identity |
| CatalogPasses.ValidateCredential | crates/connector-catalog/src/model.rs:1293-1350 | fields distinct, origins and test operation declared, authentication plan resolved |
| CatalogPasses.ValidateCredentials | crates/connector-catalog/src/model.rs:1271-1396 | accepts exactly the manifests whose origins, credentials, operations and steps all resolve |
| CatalogPasses.ValidateStepHeaders | crates/connector-catalog/src/model.rs:1477-1505 | at most 64 headers, each equal to its derivation, names and capabilities pairwise distinct |
| CatalogPasses.ValidateSelectedHeaders | crates/connector-catalog/src/model.rs:1477-1505 | accepts exactly when that holds of every step |
| CatalogPasses.CheckErrorMap | crates/connector-catalog/src/model.rs:597-650 | accepts exactly when every correlation and Retry-After header of every action counts once |
| CatalogPasses.ValidateErrorMaps | crates/connector-catalog/src/model.rs:1507-1557 | accepts exactly when that holds of every operation |
| CatalogPasses.ValidateEvidence | crates/connector-catalog/src/model.rs:1572-1624 | evidence names distinct known steps, outlasts its margin, and agrees with a fact declared exactly once |
| CatalogRules.FindStep | crates/connector-catalog/src/model.rs:1574-1577 | finds a step with the identifier, or none has it |
| CatalogPasses.ValidateEffects | crates/connector-catalog/src/model.rs:1559-1628 | accepts exactly when every operation's effect is complete |
| CatalogPasses.ValidateFactUseSites | crates/connector-catalog/src/model.rs:2006-2036 | counting sets decides that both lists of use sites repeat nothing and name the same sites |
| CatalogPasses.ValidateIdentity | crates/connector-catalog/src/model.rs:1670-1744 | accepts exactly when operations and triggers belong to the manifest and have distinct versioned identities |
| CatalogPasses.ValidateOperationIdentities | crates/connector-catalog/src/model.rs:1671-1684 | every operation belongs to the manifest and no versioned identity repeats |
| CatalogPasses.ValidateTriggerIdentities | crates/connector-catalog/src/model.rs:1685-1742 | every trigger belongs to the manifest, subscriptions resolve to one operation each, and no identity repeats |
| CatalogPasses.CompileConnectorManifest | crates/connector-catalog/src/model.rs:931-965 | succeeds exactly when all rules hold together, each stated by the manifest's own parts in the rows below, and returns the derived fact domains |
| FactDomains.DeclareFacts | crates/connector-catalog/src/model.rs:881-895 | the insertion loop gives the derivation's map or fails with it |
| FactDomains.OwnSites | crates/connector-catalog/src/model.rs:902-924 | the overwriting loop gives the derivation's map |
| FactDomains.CheckFactRequirements | crates/connector-catalog/src/model.rs:876-929 | the nested loops compute the derivation that the next lemmas characterise |
| FactDomains.FailsIffEmptyOrRepeated | crates/connector-catalog/src/model.rs:881-896 | the derivation fails exactly on an empty or repeated use site; otherwise its keys are exactly the declared sites |
| FactDomains.PolicyIffOwnedByMargin | crates/connector-catalog/src/model.rs:896-926 | a declared site is a policy exactly when its declarer or a later idempotent operation has it as a clock margin |
| FactDomains.OwnMarginIsPolicy | crates/connector-catalog/src/model.rs:921-923 | an operation's own margin is a policy wherever the operation stands |
| FactDomains.SitesCanCoincide | crates/connector-catalog/src/model.rs:904-915 | dots inside identifiers make the sites of different operations and steps one name |
| FactDomains.OrderDecides | crates/connector-catalog/src/model.rs:876-929 | when they do, swapping two operations changes the domain of the shared site |
| ManifestCheck.CheckSelectedHeaders | crates/connector-catalog/src/model.rs:396-420 | accepts exactly lower-case names without repetition of names or capability texts, at most 64 |
| ManifestCheck.CheckSteps | crates/connector-catalog/src/model.rs:327-357 | succeeds exactly when step texts are distinct and each step is valid; returns exactly the step texts |
| ManifestCheck.CheckEvidence | crates/connector-catalog/src/model.rs:371-389 | accepts exactly distinct records of known steps that outlast their margins |
| ManifestCheck.CheckOperation | crates/connector-catalog/src/model.rs:313-394 | the older validator's verdict on an operation, clause by clause |
| ManifestCheck.CheckManifest | crates/connector-catalog/src/model.rs:722-769 | the older validator's verdict on a manifest, clause by clause |
| CatalogTheorems.CompilerRefinesValidator | crates/connector-catalog/src/model.rs:722-965 | every manifest the compiler accepts, the independently written validator accepts; identifiers are as construction leaves them |
| CatalogTheorems.CompilerIsStricter | crates/connector-catalog/src/model.rs:722-769 | and not conversely: with every input declaration taken away a manifest stays valid for the older validator, while the compiler accepts it only if no step sends anything |
| CatalogTheorems.SameOriginIffEqual | crates/connector-catalog/src/model.rs:1398-1410 | comparing origins field by field is comparing origins |
| CatalogTheorems.StepsReachDeclaredOrigins | crates/connector-catalog/src/model.rs:1372-1385 | once the credentials rule holds, every step goes to one origin, exactly as the manifest declares it |
| CatalogTheorems.CredentialsStayAtAllowedOrigins | crates/connector-catalog/src/model.rs:1353-1391 | a step carries a credential exactly when its operation names one, and only to an origin that credential allows |
| CatalogTheorems.EvidenceCoversEveryStep | crates/connector-catalog/src/model.rs:1568-1580 | equal counts, distinct records and known steps force exactly one record per step, by pigeonhole |
| CatalogTheorems.AcceptedEvidenceIsComplete | crates/connector-catalog/src/model.rs:1559-1668 | once the effects and use-site rules hold, that record is bound to something the step sends, outlasts its margin and agrees with all declared facts |
| CatalogTheorems.FactCheckCannotFail | crates/connector-catalog/src/model.rs:941-951 | after the passes before it the fact-domain derivation never fails |
| CatalogTheorems.OwnSitesKeepTheirDomain | crates/connector-catalog/src/model.rs:896-926 | under the three site names as written out: coinciding names never move an operation's own margin, scope or retention to the wrong domain |
| CatalogTheorems.MatchesOnceIffSelected | crates/connector-catalog/src/model.rs:1507-1557 | once step identity and selected headers hold, the count of matching headers is at most one, and one exactly when the step selects such a header |
| CatalogTheorems.CountsOneIffOnlyOperation | crates/connector-catalog/src/model.rs:1715-1741 | the count a webhook subscription is checked by is one exactly when one operation, at one version, has the name |
| CatalogTheorems.CountsOneIffOnlyTokenStep | crates/connector-catalog/src/model.rs:1337-1348 | an OAuth token step is found exactly when one step of all operations has its name and origin |
| ErrorMaps.CompiledErrorMapsIff | crates/connector-catalog/src/model.rs:1507-1557 | once step identity and selected headers hold, the pass accepts exactly when each of the eight fallbacks and each rule refers to headers that the steps it names select |
| ErrorMaps.CheckedErrorMapIff | crates/connector-catalog/src/model.rs:597-650 | the older validator accepts exactly the same error maps, of operations that keep its other rules |
| AcceptedManifests.BindingsIff | crates/connector-catalog/src/model.rs:1412-1448 | a step's bindings are closed exactly when everything in its query, headers and body is declared and nothing is sent twice, in one place or two |
| AcceptedManifests.EvidenceIsBoundIff | crates/connector-catalog/src/model.rs:1655-1668 | evidence is bound exactly to a header the step sends or a field of its body |
| AcceptedManifests.CredentialHoldsIff | crates/connector-catalog/src/model.rs:1293-1350 | the credential rule plan by plan, on declared origins and operations; an OAuth token comes from just one step, which an operation declares |
| AcceptedManifests.SubscriptionIff | crates/connector-catalog/src/model.rs:1703-1742 | a subscription resolves exactly when its create, its delete and its check, if any, each name exactly one operation |
| AcceptedManifests.FactsMatchSourcesIff | crates/connector-catalog/src/model.rs:2006-2036 | the use-site rule holds exactly when every fact has a source, every source a fact, and no site stands twice on either side |
| AcceptedManifests.CompiledIsComplete | crates/connector-catalog/src/model.rs:982-1014 | no version, origin, operation, source, credential field, step or success status of a compiled manifest is missing |
| AcceptedManifests.StepHeadersIff | crates/connector-catalog/src/model.rs:1477-1505 | a step's selected headers hold exactly when few enough, each as derived, with no name and no capability twice |
| AcceptedManifests.IdentityIff | crates/connector-catalog/src/model.rs:1670-1744 | the identity rule by position: all operations and triggers are the manifest's own, none twice at a version, every subscription exact |
| AcceptedManifests.CheckedEvidenceCoversEveryStep | crates/connector-catalog/src/model.rs:358-390 | the older validator also leaves each step with exactly one record of evidence, outlasting its margin |
| AcceptedManifests.CheckedCredentialIff | crates/connector-catalog/src/model.rs:742-757 | it accepts a credential exactly when it has fields and goes only to declared origins |
| Quoting.QuoteEscapesEach | crates/backend/src/dialect.rs:104-112 | the sequential replacements of each dialect equal one per-character map |
| Quoting.MySqlOrderIsIrrelevant | crates/backend/src/dialect.rs:371-377 | MySQL's two replacements commute for every text |
| Quoting.ClickHouseOrderMatters | crates/backend/src/dialect.rs:475-477 | with the mark replaced first, a ClickHouse literal reads back exactly when the text has no mark, for every text |
| Quoting.ReadInvertsQuote | crates/backend/src/dialect.rs:104-112 | in every dialect and for identifiers and literals, scanning gives the text and tail exactly when the tail starts with no mark |
| Json.ReadStringInvertsEscape | crates/backend/src/dialect.rs:82-83 | an escaped key reads back as the key, whatever follows its closing quote |
| JsonTexts.ObjectReads | crates/backend/src/dialect.rs:76-100 | fields that denote their values, joined in either spacing, denote the object in that order |
| JsonTexts.PrintReads | crates/backend/src/dialect.rs:544-559 | printing and reading a value gives the value |
| Render.ConcatParts | crates/backend/src/dialect.rs:76-100 | the loop over parts gives the concatenation whose meaning ConcatObjectEvaluates states |
| Render.SqliteJsonObject | crates/backend/src/dialect.rs:296-326 | the chunk loop gives the nested calls whose meaning SqliteObjectEvaluates states |
| RenderTheorems.ValuePartSpells | crates/backend/src/dialect.rs:85-96 | a NULL never swallows the concatenation, and a bare NULL never reaches `to_json` |
| RenderTheorems.ConcatObjectEvaluates | crates/backend/src/dialect.rs:421-439 | in the concatenating forms the value is the compact object text of the pairs, in order |
| BuiltinObjects.NarrowObjectEvaluates | crates/backend/src/dialect.rs:151-162 | the narrow builtin call denotes the pairs in order |
| BuiltinObjects.ExtendedIsConcatIffNew | crates/backend/src/dialect.rs:318-324 | inserting appends everything exactly when every key is new |
| BuiltinObjects.SqliteObjectEvaluates | crates/backend/src/dialect.rs:296-326 | refused exactly when more than 63 pairs meet a key with a double quote; otherwise every call is within the argument cap and the value is given |
| BuiltinObjects.SqliteObjectIsWholeIff | crates/backend/src/dialect.rs:296-326 | it is the ordered object of all pairs exactly when it is not refused and no later key repeats |
| DialectAgreement.NamesSuitSqlite | crates/backend/src/dialect.rs:227-245 | distinct keys without a quote always suit SQLite, however many there are |
| DialectAgreement.RenderDenotes | crates/backend/src/dialect.rs:151-174 | whatever the tree, a supporting dialect evaluates its rendering to the tree's meaning |
| DialectAgreement.AnswersItsMeaning | crates/backend/src/dialect.rs:328-344 | each dialect's answer, parsed as JSON, is the tree's own ordered value |
| DialectAgreement.ListAnswersInOrder | crates/backend/src/dialect.rs:164-171 | a list answers with every row exactly once: as the rows come, or by ascending key and the rows of one key as they come |
| RowOrder.ArrangedStably | crates/backend/src/dialect.rs:561-566 | an ordered group is a permutation of its rows with keys ascending and equal keys in their first order |
| RowOrder.StableOrderIsUnique | crates/backend/src/dialect.rs:561-566 | there is only one such permutation |
| DialectAgreement.DialectsAgree | crates/backend/src/dialect.rs:544-574 | the dialects that support a tree answer alike, key for key in the same order |
| DialectAgreement.SortCommutes | crates/backend/src/dialect.rs:561-570 | sorting rows, in the stable order of ArrangedStably, and taking texts is taking texts and sorting by the same keys |
| DialectAgreement.UnreadRowsAreStrings | crates/backend/src/dialect.rs:328-344 | without `json(...)` around them SQLite's rows would come back as strings of their own text, encoded twice |
| ColumnLists.ColumnListsAgreeIffNoNull | crates/backend/src/dialect.rs:441-448 | a list of bare columns from MySQL in any order, or from ClickHouse in none, is Postgres's list exactly when no row's column is NULL |
| ColumnLists.FullColumnListsAgree | crates/backend/src/dialect.rs:561-570 | without NULL, ClickHouse gives Postgres's list of bare columns in any order |
| ColumnLists.SqliteColumnListsAgreeIffNoText | crates/backend/src/dialect.rs:328-344 | a list of bare columns from SQLite, in any order, is Postgres's list exactly when no row's column is a text |
| ClickHouseTypes.UnwrapType | crates/backend/src/dialect.rs:603-620 | the reassigning loop reaches the fully unwrapped text |
| ClickHouseTypes.FindSeparator | crates/backend/src/dialect.rs:628-643 | the scan finds the first comma outside parentheses, passing over an unmatched closing one |
| ClickHouseTypes.ClickHouseMapTypes | crates/backend/src/dialect.rs:622-650 | the parser computes the function that MapTypesOfPrinted characterises |
| ClickHouseTypes.UnwrappedIsCore | crates/backend/src/dialect.rs:603-620 | unwrapping a printed type under any wrappers gives the printed inner type |
| ClickHouseTypes.StepOverType | crates/backend/src/dialect.rs:629-643 | a printed type holds no separator of its own at any nesting |
| ClickHouseTypes.MapTypesOfPrinted | crates/backend/src/dialect.rs:622-650 | a printed Map under any wrappers gives exactly its printed key and value types; any other printed type gives nothing |
| ClickHouseTypes.NullableIffWrapped | crates/catalog/src/lib.rs:592-598 | a printed type is nullable exactly when Nullable is among its wrappers |
| ClickHouseTypes.ClickHouseTypeToPg | crates/catalog/src/lib.rs:600-626 | the unwrapping loop and the table give the name that the next lemma compares |
| ClickHouseTypes.ScalarTablesAgreeIffShared | crates/backend/src/scalar.rs:109-137 | going through the Postgres name and going directly give one scalar exactly on the families both tables know alike |
| ClickHouseTypes.ScalarOfStripped | crates/backend/src/scalar.rs:109-137 | the direct reader gives the scalar of the family left when white space is trimmed before every wrapper |
| ClickHouseTypes.ScalarTablesAgreeIff | crates/backend/src/scalar.rs:109-137 | for every text: the two tables agree exactly when the family inside all wrappers is shared and trimming once only leaves a family of the same Postgres name |
| ClickHouseTypes.PaddedWrapperAgreesIff | crates/catalog/src/lib.rs:600-606 | padding between a wrapper's parentheses goes unnoticed exactly by the types that are text anyway, for every padding and shared family |
| ClickHouseNames.UnsharedNames | crates/catalog/src/lib.rs:600-626 | outside the shared families wide integers are catalogued as int8, containers as json and all else as text |
| ClickHouseNames.IntegersFitIff | crates/catalog/src/lib.rs:612-614 | an integer column is catalogued as an integer that holds all its values exactly for five of the twelve families |
| ClickHouseNames.PostgresNameIsKept | crates/backend/src/scalar.rs:37-59 | reading a Postgres name and writing the scalar back gives the name, or text for the other two spellings of it |
| ClickHouseNames.CaseIsIgnored | crates/catalog/src/lib.rs:608-611 | types whose names differ in the case of letters only are read alike, whatever their wrappers and arguments |
| RustBlankScan.Blank | scripts/check_connector_processor_boundary.py:111-114 | overwrites a span with spaces except line ends and touches nothing else |
| RustBlankScan.SkipBlockComment | scripts/check_connector_processor_boundary.py:235-246 | computes the end that BlockEndIff characterises by comment trees |
| RustBlankScan.FindRawStart | scripts/check_connector_processor_boundary.py:116-126 | computes the start that RawStartIff characterises by prefix, hashes and quote |
| RustBlankScan.SkipHashes | scripts/check_connector_processor_boundary.py:121-122 | passes over hashes only and stops at what is no hash |
| RustBlankScan.SkipString | scripts/check_connector_processor_boundary.py:260-277 | computes the end that StringEndIff characterises by plain and escaped octets |
| RustBlankScan.EscapedCharacterEnd | scripts/check_connector_processor_boundary.py:153-198 | computes the end that EscapeEndIff characterises by the grammar of escapes |
| RustBlankScan.FindCharacter | scripts/check_connector_processor_boundary.py:128-211 | computes the end that CharacterMatchIff characterises by the grammar of literals |
| RustBlankScan.FindMatch | scripts/check_connector_processor_boundary.py:225-302 | computes the end that MatchIffLexeme characterises by the grammar of all lexemes |
| RustBlankScan.BlankOctets | scripts/check_connector_processor_boundary.py:107-304 | the in-place pass leaves exactly the octets that BlankingKeepsExactlyTheCode describes |
| RustBlankScan.BlankRustNoncode | scripts/check_connector_processor_boundary.py:107-304 | on text the final decoding always succeeds and gives the blanked text |
| RustLexemeTheorems.BlockEndIff | scripts/check_connector_processor_boundary.py:235-246 | a comment ends after the mark that balances its opening, its inside being a tree of comments, or with the text when none does |
| RustLexemeTheorems.ContentIsFree | scripts/check_connector_processor_boundary.py:251-258 | its content holds no closing mark exactly when the mark stands nowhere in the text before the content ends |
| RustLexemeTheorems.RawStartIff | scripts/check_connector_processor_boundary.py:116-126 | a raw string starts exactly where a prefix, some hashes and a quote stand |
| RustLexemeTheorems.StringEndIff | scripts/check_connector_processor_boundary.py:267-277 | a string ends after the first quote no backslash escapes, or with the text |
| RustLexemeTheorems.EscapeEndIff | scripts/check_connector_processor_boundary.py:153-198 | an escape ends exactly where a simple, hexadecimal or Unicode escape of the grammar ends |
| RustLexemeTheorems.HexDigitIff | scripts/check_connector_processor_boundary.py:165-190 | a hexadecimal digit stands for its place among the sixteen, in either case |
| RustLexing.CharacterMatchIff | scripts/check_connector_processor_boundary.py:200-223 | a character or byte literal is told from a lifetime exactly where one of the grammar's stands |
| RustLexing.MatchIffLexeme | scripts/check_connector_processor_boundary.py:225-302 | the scan finds an end exactly where a comment or literal of the grammar stands, and it is that lexeme's end |
| RustLexing.BlankingKeepsExactlyTheCode | scripts/check_connector_processor_boundary.py:107-304 | every text is a list of code octets and lexemes of the grammar, and blanking keeps the code as it was and spaces out each lexeme |
| RustBlankTheorems.LinesAreKept | scripts/check_connector_processor_boundary.py:107-304 | length, CR and LF stay where they were; every other octet stays or becomes a space |
| RustBlankTheorems.CharactersAreNotSplit | scripts/check_connector_processor_boundary.py:107-304 | a character of several octets is blanked as a whole or not at all |
| RustBlankTheorems.Utf8IsKept | scripts/check_connector_processor_boundary.py:304 | valid UTF-8 stays valid |
| RustBlankTheorems.NothingLeftToBlank | scripts/check_connector_processor_boundary.py:107-304 | no comment and no literal starts anywhere in the blanked text |
| RustBlankTheorems.Idempotent | scripts/check_connector_processor_boundary.py:107-304 | blanking twice is blanking once, for every octet string |
| RustTokens.RustTokens | scripts/check_connector_processor_boundary.py:328-367 | the appending loop gives the token sequence that TokensIffTokenized characterises |
| RustTokens.TokensStandInOrder | scripts/check_connector_processor_boundary.py:328-367 | every token stands in the source at its offset, and offsets grow |
| RustTokens.TokensIffTokenized | scripts/check_connector_processor_boundary.py:328-367 | for every text: the tokens are the one list that makes it up with skipped characters between them and no word cut short or split |
| RustTokens.LexingInvertsSpelling | scripts/check_connector_processor_boundary.py:328-367 | words written with any white space between them, or none where they do not run together, lex back to exactly those words |
| RustLexing.AtomsAreIdentifierOctets | scripts/check_connector_processor_boundary.py:307-319 | white space apart, the tokenizer's atom characters are exactly those made of the scan's identifier octets |
| RustTokens.KeepApart | scripts/check_connector_processor_boundary.py:307-367 | only two identifiers in a row need white space, when no lone colon or hash is among the words |
| RustUseScan.RustUseLeaves | scripts/check_connector_processor_boundary.py:370-457 | the cursor loops return the parser's leaves, or nothing |
| RustUseScan.ScanItem | scripts/check_connector_processor_boundary.py:391-427 | one tree from the cursor: its leaves and the cursor after it, or nothing |
| RustUseScan.ScanGroup | scripts/check_connector_processor_boundary.py:404-424 | one group: its leaves are appended and the cursor ends past its brace |
| RustUseScan.ScanPath | scripts/check_connector_processor_boundary.py:429-449 | one path: segments, `self`, glob, alias or a group |
| RustUseTheorems.UseLeavesIffDenoted | scripts/check_connector_processor_boundary.py:370-457 | tokens are accepted exactly when they print some tree, and the leaves are that tree's, in source order |
| RustUseTheorems.SpelledTreeParses | scripts/check_connector_processor_boundary.py:328-457 | from text: a tree written with any white space, needed only between identifiers, is tokenized and parsed back to its leaves |
| TypeRefs.ParseInvertsSpelling | crates/action/src/lib.rs:242-267 | parsing inverts printing with any padding at each place, of its own length and kind |
| TypeRefs.ParsedIffNamed | crates/action/src/lib.rs:242-267 | exactly the well-named types are ever returned |
| Action.Validate | crates/action/src/lib.rs:271-315 | the recursive check gives the verdict and answer that AcceptedIffAnswered characterises |
| Action.ProjectObject | crates/action/src/lib.rs:318-366 | the loop fills the ordered map, whose keys and values AcceptedIffAnswered states, or stops at the first failing field |
| Action.ValidateField | crates/action/src/lib.rs:328-362 | one selected field: the type's name, the undeclared member as it is, a null for an absent or null one if the type allows, or the member's own answer |
| Action.ValidateItems | crates/action/src/lib.rs:284-293 | the items of a list, each shaped, or the first failure |
| ActionTheorems.ShapesIffConforms | crates/action/src/lib.rs:271-382 | accepted exactly when every place reached along items and selected fields fits its declared type, recursive types included |
| ActionAnswers.AcceptedIffAnswered | crates/action/src/lib.rs:271-366 | the answer of every response: accepted with it exactly when it conforms and holds, place by place, the handler's values under the selected keys |
| ActionAnswers.FirstKeysInOrder | crates/action/src/lib.rs:324-365 | an answer's keys are those selected, alias before name, each once, in the order they are first selected |
| ActionAnswers.BuiltInScalars | crates/action/src/lib.rs:370-392 | which built-in scalars each kind of value answers |
| ActionTheorems.ShapedMembers | crates/action/src/lib.rs:324-365 | keys in order of first selection; under each, what the last field of that key gives |
| ActionTheorems.ShapedObjectHasSelectedKeys | crates/action/src/lib.rs:324-365 | with distinct response keys the answer has exactly them, in the order selected |
| ActionTheorems.ShapeIsWellShaped | crates/action/src/lib.rs:271-366 | no accepted answer has a null where the declared type has none, at any depth |
| ActionTheorems.OnlySelectedMatters | crates/action/src/lib.rs:318-366 | values alike along the selection get the same verdict and the same answer |
| ActionTheorems.UnselectedIsInvisible | crates/action/src/lib.rs:318-366 | a member nobody selects changes nothing |
| ActionTheorems.ShapingAgainChangesNothing | crates/action/src/lib.rs:271-366 | for a selection that renames and repeats nothing an accepted answer is a fixed point |
| Pdf.RenderText | examples/lending-golang/receipt.go:159-164 | the loop writes one shown line after another |
| Pdf.WriteObjects | examples/lending-golang/receipt.go:175-193 | each recorded offset is where its object starts in the file, and the table lists them |
| Pdf.RenderReceiptPDF | examples/lending-golang/receipt.go:149-194 | the bytes are the file from which ReceiptReads reads the loan |
| PdfTheorems.TableIsExactIff | examples/lending-golang/receipt.go:177-192 | every entry of the table gives its own object's offset exactly when the last object starts below 10^10 |
| PdfTheorems.FetchFinds | examples/lending-golang/receipt.go:166-193 | from `startxref` through the table, object n is found as written, and the stream by its declared length |
| PdfTheorems.LiteralReads | examples/lending-golang/receipt.go:199-201 | an escaped line followed by anything reads back whole, never ending early |
| PdfTheorems.OneEolKeepsIff | examples/lending-golang/receipt.go:199-201 | a line reads back unchanged exactly when it has no carriage return |
| PdfTheorems.ContentReads | examples/lending-golang/receipt.go:159-164 | all shown lines read back, in order |
| PdfReading.ContentIsFound | examples/lending-golang/receipt.go:166-193 | from `startxref` and the trailer, catalog, page tree and page lead a reader to the content stream |
| PdfReading.ReceiptReads | examples/lending-golang/receipt.go:149-201 | the loan is read back from its file, each field after its own label, exactly when no field has a carriage return |

## Left out

- Connector ABI: inbound events, `BoundedBytes`, `NonEmptyVec` and the getters, which only repeat bounds proved elsewhere; `canonical_size` is a parameter.
- Ids: the 96-octet literals checked during constant evaluation are the same loop and are not modelled apart.
- Catalog: value-contract validation and hashing, `selected_response_header` and the provenance pass are parameters, since the code they call is elsewhere; facts that are neither text nor a 64-bit number are one opaque case; fields no pass reads are not modelled.
- CatalogText: which characters license texts and header values may hold is stated only as the predicates themselves.
- Errors: verdicts are proved; wording, and which of several simultaneous failures is reported, are not, except where a row says so.
- SQL engines: only literals, concatenation, coalesce, text casts, JSON builders, `json_insert` and ordered aggregation have a meaning. Assumed of the engines: rows with equal keys keep their order, `GROUP_CONCAT` has room, SQLite path names are read without escapes, a scalar subquery keeps SQLite's JSON subtype while a row set does not, MySQL runs without `NO_BACKSLASH_ESCAPES` and `ANSI_QUOTES`, and Postgres with `standard_conforming_strings`.
- Dialects: `limit_offset`, `null_ordering`, `to_json_text`, `render_scalar`, spatial values and the capability tables.
- DialectAgreement.DialectsAgree: lists whose rows are bare scalars are compared apart, in `ColumnLists`, because there the answers depend on the data.
- ColumnLists.ColumnListsAgreeIffNoNull: ordered ClickHouse lists with NULL among their rows, because what `arrayStringConcat` makes of a NULL in a pair is outside the model; without NULL, FullColumnListsAgree covers them.
- Json: numbers are kept as the token that spells them, so no numeric equality between spellings is claimed.
- ClickHouseTypes.MapTypesOfPrinted: type texts with padding, quoted arguments or named tuple elements are outside the printed types it speaks of.
- Boundary script: `rust_use_statements` and everything after the `use` leaves, and its scans of YAML, TOML and lint text.
- RustBlank: the input is a list of octets; file reading is not part of this model.
- Action: variables, arguments, roles and transport; fragments are skipped as the code skips them; numbers are split into 64-bit integers and the rest.
- Pdf: loading the loan. The reader knows the shape of this file's catalog, page tree and page, and does not look at the font.
