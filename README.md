# SenSeeAct core rules, modelled in Dafny

SenSeeAct is a data platform for health research. Users, projects and per-user
tables live in a database. Mobile clients synchronise with the server, and a
web front end lets users sign up, log in and edit their data.
This project models the parts of SenSeeAct whose behaviour can be stated exactly:

- the criteria algebra: value comparison, criteria terms, the record matcher,
  the JSON filter generator and parser, the SQL WHERE builder and sort reversal;
- the user rules of the database layer: how a query is routed to a per-user table,
  and how logged actions are stamped;
- the synchronisation rules: action merging, progress skip and read rules,
  table restrictions and their union;
- the in-memory tables and caches;
- the access and authentication rules;
- the string logic of the client model and of the web pages: the input
  transformers and readers of the text field, the digit boxes of the code
  field, and the email check and error order of the sign-up form;
- the click coordinator of the web pages, which joins the end of a click
  animation and the report of an asynchronous handler into one callback.

Each Dafny module follows one source file. Times are integer milliseconds
throughout. Code that changes state step by step (loops, objects whose
fields are updated) is modelled by classes and methods whose contracts tie
them to specification functions. Pure code is modelled by functions. Lemmas
state the properties the code and its documentation promise.

## Model

| member | source | states |
|---|---|---|
| JavaText.CompareTo | DataAccessObjects/src/main/java/nl/rrd/senseeact/dao/DatabaseCache.java:227 | String.compareTo is zero exactly for equal strings and negative for a proper prefix; it compares UTF-16 code units |
| JavaText.LessTrichotomy | DataAccessObjects/src/main/java/nl/rrd/senseeact/dao/DatabaseCache.java:227 | the order Collections.sort uses is total and strict: exactly one of a < b, a == b, b < a |
| JavaText.LessTransitive | DataAccessObjects/src/main/java/nl/rrd/senseeact/dao/DatabaseCache.java:227 | the String.compareTo order is transitive |
| JavaText.SurrogatePairs | DataAccessObjects/src/main/java/nl/rrd/senseeact/dao/DatabaseCriteria.java:122-128 | a character above the Basic Multilingual Plane counts as its surrogate pair: U+1F600 sorts before U+FF5E and hashes as 31 * 0xD83D + 0xDE00 |
| JavaText.Trim | SenSeeActClient/src/main/java/nl/rrd/senseeact/client/model/User.java:1033-1034 | String.trim removes the characters up to U+0020 at both ends, and is empty exactly when every character is one of them |
| JavaText.ToInt32 | DataAccessObjects/src/main/java/nl/rrd/senseeact/dao/DatabaseCriteria.java:497-504 | the int wrap-around keeps the value in 32-bit range and congruent modulo 2^32 |
| JavaText.NatToStringInjective | DataAccessObjects/src/main/java/nl/rrd/senseeact/dao/PrimitiveValueComparison.java:63-67 | different natural numbers have different decimal texts |
| JavaText.LongToStringInjective | DataAccessObjects/src/main/java/nl/rrd/senseeact/dao/PrimitiveValueComparison.java:63-67 | Long.toString is injective: the text determines the number |
| JsText.Trim | SenSeeActService/src/main/web/js/widgets/text-edit.js:121 | String.prototype.trim removes ECMAScript white space and line terminators at both ends, and is empty exactly when every character is one |
| JsText.TrimDropsTrailing | SenSeeActService/src/main/web/js/widgets/text-edit.js:153 | a trailing white-space character is removed from text whose ends are not white space |
| JsText.TrimIdempotent | SenSeeActService/src/main/web/js/pages/signup.js:182-189 | trimming twice is trimming once |
| JsText.TrimDiffersFromJava | SenSeeActService/src/main/web/js/widgets/text-edit.js:121 | unlike Java's trim, JavaScript's keeps U+0001 and removes the no-break space U+00A0 |
| PrimitiveValueComparison.NormalizeValue | DataAccessObjects/src/main/java/nl/rrd/senseeact/dao/PrimitiveValueComparison.java:18-26 | null stays null, every integer kind becomes a Long with the same value, other objects stay as they are |
| PrimitiveValueComparison.NullEqualsOnlyNull | DataAccessObjects/src/main/java/nl/rrd/senseeact/dao/PrimitiveValueComparison.java:35-39 | isEqual with null on either side holds exactly when the other side is null |
| PrimitiveValueComparison.NullIsLeast | DataAccessObjects/src/main/java/nl/rrd/senseeact/dao/PrimitiveValueComparison.java:56-62 | null is below every non-null value in all four orderings, and never above one |
| PrimitiveValueComparison.LessEqualIsLessOrEqual | DataAccessObjects/src/main/java/nl/rrd/senseeact/dao/PrimitiveValueComparison.java:79-91 | isLessEqual(a, b) holds exactly when isLessThan(a, b) or isEqual(a, b) holds |
| PrimitiveValueComparison.GreaterIsConverse | DataAccessObjects/src/main/java/nl/rrd/senseeact/dao/PrimitiveValueComparison.java:102-137 | isGreaterThan(a, b) is isLessThan(b, a), and isGreaterEqual(a, b) is isLessEqual(b, a) |
| PrimitiveValueComparison.EqualIsEquivalence | DataAccessObjects/src/main/java/nl/rrd/senseeact/dao/PrimitiveValueComparison.java:35-45 | isEqual is reflexive, symmetric and transitive: 5 equals "5" and "5" equals 5 only through the one decimal text, so chains across kinds stay equal |
| PrimitiveValueComparison.LessThanStrictOrder | DataAccessObjects/src/main/java/nl/rrd/senseeact/dao/PrimitiveValueComparison.java:56-68 | isLessThan is irreflexive, and transitive among values of one kind |
| PrimitiveValueComparison.MixedKindsCompareAsText | DataAccessObjects/src/main/java/nl/rrd/senseeact/dao/PrimitiveValueComparison.java:63-67 | an integer against a string compares as text, so 10 is below "9" although 10 is not below 9 |
| PrimitiveValueComparison.EqualSameKindNormalizesEqual | DataAccessObjects/src/main/java/nl/rrd/senseeact/dao/PrimitiveValueComparison.java:11-26 | for values of one kind, isEqual implies equal normal forms, as the documentation promises |
| PrimitiveValueComparison.EqualMixedKindsNormalizeApart | DataAccessObjects/src/main/java/nl/rrd/senseeact/dao/PrimitiveValueComparison.java:21-25 | across kinds the promise fails: 5 equals "5", yet the normal forms are 5L and "5" |
| DatabaseCriteria.FormatValue | DataAccessObjects/src/main/java/nl/rrd/senseeact/dao/DatabaseCriteria.java:61-70 | null prints as "null", a number as its decimal text, a string as a JSON string literal |
| DatabaseCriteria.HashCode | DataAccessObjects/src/main/java/nl/rrd/senseeact/dao/DatabaseCriteria.java:122-128 | a comparison hashes its column and normalised value as 31 * h(column) + h(value), where a string hashes its UTF-16 code units and a long folds its two halves; And and Or sum their operand hashes; all in 32-bit int arithmetic |
| DatabaseCriteria.HashOperands | DataAccessObjects/src/main/java/nl/rrd/senseeact/dao/DatabaseCriteria.java:497-504 | the loop returns the wrapped int sum of the operand hashes, in operand order |
| DatabaseCriteria.ToString | DataAccessObjects/src/main/java/nl/rrd/senseeact/dao/DatabaseCriteria.java:146-149 | the text of a criterion: a comparison prints as column, operator symbol and value; And and Or print their joined operands |
| DatabaseCriteria.OperandsToString | DataAccessObjects/src/main/java/nl/rrd/senseeact/dao/DatabaseCriteria.java:524-536 | the StringBuilder loop yields "" for no operands, the operand's own text for one, and "(x) AND (y)..." otherwise |
| DatabaseCriteria.LeafText | DataAccessObjects/src/main/java/nl/rrd/senseeact/dao/DatabaseCriteria.java:61-66 | a comparison prints as `column op value`, with null as "null" and numbers as their digits |
| DatabaseCriteria.LogicalTextShort | DataAccessObjects/src/main/java/nl/rrd/senseeact/dao/DatabaseCriteria.java:525-530 | an empty And or Or prints as "", and a single operand prints as that operand's text |
| DatabaseCriteria.LogicalTextPair | DataAccessObjects/src/main/java/nl/rrd/senseeact/dao/DatabaseCriteria.java:531-535 | two operands print as "(a) AND (b)" or "(a) OR (b)" |
| DatabaseCriteria.ContainsColumnOfOperands | DataAccessObjects/src/main/java/nl/rrd/senseeact/dao/DatabaseCriteria.java:488-495 | And and Or contain a column when any operand does, and an empty And or Or contains none |
| DatabaseCriteria.HasMatchMeans | DataAccessObjects/src/main/java/nl/rrd/senseeact/dao/DatabaseCriteria.java:514-519 | in the cover equality Equals, the search for an operand succeeds exactly when some operand of the other side is equal |
| DatabaseCriteria.AllMatchedMeansCovered | DataAccessObjects/src/main/java/nl/rrd/senseeact/dao/DatabaseCriteria.java:513-521 | in the cover equality Equals, the first pass holds exactly when every operand of this side equals some operand of the other |
| DatabaseCriteria.AllMatchedBackMeansCovered | DataAccessObjects/src/main/java/nl/rrd/senseeact/dao/DatabaseCriteria.java:506-523 | in the cover equality Equals, the second pass holds exactly when every operand of the other side equals some operand of this side |
| DatabaseCriteria.EqualsComparesOperandSets | DataAccessObjects/src/main/java/nl/rrd/senseeact/dao/DatabaseCriteria.java:506-523 | under the cover equality Equals, two Ands, or two Ors, are equal exactly when their operand sets cover each other; an And never equals an Or |
| DatabaseCriteria.EqualsReflexive | DataAccessObjects/src/main/java/nl/rrd/senseeact/dao/DatabaseCriteria.java:130-145 | every supported criterion equals itself |
| DatabaseCriteria.EqualsSymmetric | DataAccessObjects/src/main/java/nl/rrd/senseeact/dao/DatabaseCriteria.java:506-523 | the cover equality Equals is symmetric at every depth |
| DatabaseCriteria.DifferentClassesNeverEqual | DataAccessObjects/src/main/java/nl/rrd/senseeact/dao/DatabaseCriteria.java:131-137 | comparisons of different classes are never equal, even over the same column and value |
| DatabaseCriteria.EqualsIgnoresOrderAndDuplicates | DataAccessObjects/src/main/java/nl/rrd/senseeact/dao/DatabaseCriteria.java:506-523 | under the cover equality Equals, an And or Or equals any other with the same set of operands, whatever their order and repetitions |
| DatabaseCriteria.HashDisagreesOnDuplicates | DataAccessObjects/src/main/java/nl/rrd/senseeact/dao/DatabaseCriteria.java:497-523 | And(a, a) equals And(a) but hashes differently |
| DatabaseCriteria.HashDisagreesOnValueKind | DataAccessObjects/src/main/java/nl/rrd/senseeact/dao/DatabaseCriteria.java:122-145 | Equal(c, 5) equals Equal(c, "5") but hashes differently |
| DatabaseCriteria.ConsistentHash | DataAccessObjects/src/main/java/nl/rrd/senseeact/dao/DatabaseCriteria.java:122-128 | the corrected hash code stays a 32-bit int; comparisons hash column and value text, And and Or their largest operand hash |
| DatabaseCriteria.MaxHashBounds | DataAccessObjects/src/main/java/nl/rrd/senseeact/dao/DatabaseCriteria.java:497-504 | the largest operand hash bounds every operand hash and is one of them or 0 |
| DatabaseCriteria.EqualsHashesAlike | DataAccessObjects/src/main/java/nl/rrd/senseeact/dao/DatabaseCriteria.java:130-145 | with the corrected hash code, equal criteria have equal hash codes at every depth, as the equals/hashCode contract demands |
| DatabaseCriteria.ConsistentHashExamples | DataAccessObjects/src/main/java/nl/rrd/senseeact/dao/DatabaseCriteria.java:497-523 | the two counterexamples to the hash as written, And(a, a) against And(a) and 5 against "5", hash alike when corrected |
| DatabaseCriteria.JavaEqualsReflexive | DataAccessObjects/src/main/java/nl/rrd/senseeact/dao/DatabaseCriteria.java:506-523 | the equality as written, through two HashSets of the operands, holds between every supported criterion and itself |
| DatabaseCriteria.HashSetDistinct | DataAccessObjects/src/main/java/nl/rrd/senseeact/dao/DatabaseCriteria.java:515-518 | the HashSet built from an operand list holds no element that a later element would have been found equal to by hash code and equals |
| DatabaseCriteria.HashSetHoldsAll | DataAccessObjects/src/main/java/nl/rrd/senseeact/dao/DatabaseCriteria.java:515-518 | every operand of the list is contained in the HashSet built from it |
| DatabaseCriteria.NotContains | DataAccessObjects/src/main/java/nl/rrd/senseeact/dao/DatabaseCriteria.java:515-520 | a set that does not contain an element holds no member with its hash code that it equals |
| DatabaseCriteria.SingletonSetsDiffer | DataAccessObjects/src/main/java/nl/rrd/senseeact/dao/DatabaseCriteria.java:497-523 | two operands equal by equals but with different hash codes: And of the one covers And of the other, yet the sets as written differ |
| DatabaseCriteria.PairSetDiffers | DataAccessObjects/src/main/java/nl/rrd/senseeact/dao/DatabaseCriteria.java:497-523 | two such operands together form a set of two, so And(x, y) is not equal as written to And(x), although it covers it |
| DatabaseCriteria.JavaEqualsDiffersFromCover | DataAccessObjects/src/main/java/nl/rrd/senseeact/dao/DatabaseCriteria.java:497-523 | the equality as written differs from the cover equality on And(Equal(c, 5)) against And(Equal(c, "5")), And(Equal(c, 5), Equal(c, "5")) against And(Equal(c, 5)), and And(And(a, a)) against And(And(a)) |
| CriteriaMatcher.Lookup | DataAccessObjects/src/main/java/nl/rrd/senseeact/dao/DatabaseCriteriaMatcher.java:75-79 | a missing key reads as null, a present key as its value |
| CriteriaMatcher.Matches | DataAccessObjects/src/main/java/nl/rrd/senseeact/dao/DatabaseCriteriaMatcher.java:43-66 | an unsupported class is an error, and a comparison applies its operator to the record value first and the criterion value second |
| CriteriaMatcher.MatchesAll | DataAccessObjects/src/main/java/nl/rrd/senseeact/dao/DatabaseCriteriaMatcher.java:163-170 | an empty And matches every record |
| CriteriaMatcher.MatchesAny | DataAccessObjects/src/main/java/nl/rrd/senseeact/dao/DatabaseCriteriaMatcher.java:179-186 | an empty Or matches no record |
| CriteriaMatcher.MatchesMeansHolds | DataAccessObjects/src/main/java/nl/rrd/senseeact/dao/DatabaseCriteriaMatcher.java:43-186 | on supported criteria the matcher never fails, and it agrees with the logical meaning: comparisons, conjunction and disjunction |
| CriteriaMatcher.AllMeansEvery | DataAccessObjects/src/main/java/nl/rrd/senseeact/dao/DatabaseCriteriaMatcher.java:163-170 | the early-exit And loop returns true exactly when every operand holds |
| CriteriaMatcher.AnyMeansSome | DataAccessObjects/src/main/java/nl/rrd/senseeact/dao/DatabaseCriteriaMatcher.java:179-186 | the early-exit Or loop returns true exactly when some operand holds |
| CriteriaMatcher.EqualNullSelectsMissing | DataAccessObjects/src/main/java/nl/rrd/senseeact/dao/DatabaseCriteriaMatcher.java:75-79 | Equal(col, null) selects exactly the records where col is missing or null |
| CriteriaMatcher.NotEqualIsComplement | DataAccessObjects/src/main/java/nl/rrd/senseeact/dao/DatabaseCriteriaMatcher.java:89-94 | NotEqual matches exactly the records that Equal does not |
| CriteriaMatcher.EmptyLogicalOperators | DataAccessObjects/src/main/java/nl/rrd/senseeact/dao/DatabaseCriteriaMatcher.java:163-186 | And() matches every record and Or() matches none |
| CriteriaMatcher.UnsupportedReachedOrSkipped | DataAccessObjects/src/main/java/nl/rrd/senseeact/dao/DatabaseCriteriaMatcher.java:61-65 | an unsupported operand raises an error only when the early-exit loop reaches it |
| DatabaseSort.KeyText | DataAccessObjects/src/main/java/nl/rrd/senseeact/dao/DatabaseSort.java:81-83 | the text is the column (or "null"), a space, and "ASC" exactly when ascending or "DESC" exactly when descending |
| DatabaseSort.Sort.Default | DataAccessObjects/src/main/java/nl/rrd/senseeact/dao/DatabaseSort.java:19-26 | a default sort has no column and is ascending |
| DatabaseSort.Sort.constructor | DataAccessObjects/src/main/java/nl/rrd/senseeact/dao/DatabaseSort.java:37-40 | the constructor stores the column, which may be null, and the direction |
| DatabaseSort.Sort.SetColumn | DataAccessObjects/src/main/java/nl/rrd/senseeact/dao/DatabaseSort.java:56-58 | the setter changes the column, to null as well, and keeps the direction |
| DatabaseSort.Sort.SetAscending | DataAccessObjects/src/main/java/nl/rrd/senseeact/dao/DatabaseSort.java:76-78 | the setter changes the direction and keeps the column |
| DatabaseSort.ReverseKeys | DataAccessObjects/src/main/java/nl/rrd/senseeact/dao/DatabaseSort.java:85-92 | the reversed list has the same length, keeps every column and flips every direction |
| DatabaseSort.Reverse | DataAccessObjects/src/main/java/nl/rrd/senseeact/dao/DatabaseSort.java:85-92 | the loop fills a fresh array with fresh objects holding the reversed keys, and leaves the input untouched |
| DatabaseSort.ReverseKeysInvolutive | DataAccessObjects/src/main/java/nl/rrd/senseeact/dao/DatabaseSort.java:85-92 | reversing twice gives back the original keys |
| SelectFilterGenerator.ValueJson | SenSeeActClient/src/main/java/nl/rrd/senseeact/client/SelectFilterGenerator.java:34-39 | a value is written as JSON of its own kind: null, number or string |
| SelectFilterGenerator.ToJsonObject | SenSeeActClient/src/main/java/nl/rrd/senseeact/client/SelectFilterGenerator.java:9-32 | generation succeeds exactly for supported criteria, and then yields an object with exactly one entry |
| SelectFilterGenerator.OperandsJson | SenSeeActClient/src/main/java/nl/rrd/senseeact/client/SelectFilterGenerator.java:86-106 | the And/Or list has one item per operand, in operand order, each the operand's own JSON object |
| SelectFilterParser.ParseOperator | SenSeeActService/src/main/java/nl/rrd/senseeact/service/controller/model/SelectFilterParser.java:185-199 | an accepted operator key is the generator's key of the comparison it names |
| SelectFilterParser.ParseFilter | SenSeeActService/src/main/java/nl/rrd/senseeact/service/controller/model/SelectFilterParser.java:29-59 | a parsed filter is supported criteria and came from an object with exactly one entry under a string key |
| SelectFilterParser.ParseLogical | SenSeeActService/src/main/java/nl/rrd/senseeact/service/controller/model/SelectFilterParser.java:61-101 | a parsed "$and" or "$or" list yields supported criteria |
| SelectFilterParser.ParseItems | SenSeeActService/src/main/java/nl/rrd/senseeact/service/controller/model/SelectFilterParser.java:70-74 | every list item is parsed, one criterion per item |
| SelectFilterParser.ParseField | SenSeeActService/src/main/java/nl/rrd/senseeact/service/controller/model/SelectFilterParser.java:103-125 | a field filter is accepted only for an allowed field of the table; an object value gives an operator comparison, any other value an Equal |
| SelectFilterParser.ParseFieldOperator | SenSeeActService/src/main/java/nl/rrd/senseeact/service/controller/model/SelectFilterParser.java:149-183 | an operator object is accepted only with exactly one entry under a known operator key, giving that comparison on the field |
| SelectFilterParser.ParseFilterMap | SenSeeActService/src/main/java/nl/rrd/senseeact/service/controller/model/SelectFilterParser.java:29-59 | the recursive-descent method computes the filter meaning |
| SelectFilterParser.ParseFilterList | SenSeeActService/src/main/java/nl/rrd/senseeact/service/controller/model/SelectFilterParser.java:61-101 | the list loop stops at the first failing item and otherwise gives the And or Or of the list meaning |
| SelectFilterParser.SortCheck | SenSeeActService/src/main/java/nl/rrd/senseeact/service/controller/model/SelectFilterParser.java:217-231 | the sort list is accepted exactly when every item names a column of the table, and is then returned unchanged |
| SelectFilterParser.ParseSort | SenSeeActService/src/main/java/nl/rrd/senseeact/service/controller/model/SelectFilterParser.java:217-231 | the loop stops at the first item without a column or with an unknown column; the corrected message names the column |
| SelectFilterParser.SortErrorNamesColumn | SenSeeActService/src/main/java/nl/rrd/senseeact/service/controller/model/SelectFilterParser.java:220-229 | the first unknown column decides the error; the corrected message names it, while the message as written always shows "null" |
| SelectFilterParser.LogicalListRules | SenSeeActService/src/main/java/nl/rrd/senseeact/service/controller/model/SelectFilterParser.java:61-81 | an empty or missing list is rejected, and a one-item list stands for its item |
| SelectFilterParser.OperatorKeysAgree | SenSeeActService/src/main/java/nl/rrd/senseeact/service/controller/model/SelectFilterParser.java:185-199 | the accepted keys are exactly $ne, $gt, $lt, $le and $ge, and each generated key parses back to its comparison |
| SelectFilterParser.NormalizeCriteria | SenSeeActService/src/main/java/nl/rrd/senseeact/service/controller/model/SelectFilterParser.java:135-147 | normalising keeps the shape of the tree and normalises each comparison value |
| SelectFilterParser.RoundTrip | SenSeeActService/src/main/java/nl/rrd/senseeact/service/controller/model/SelectFilterParser.java:29-125 | parsing the generated object of any parsable criteria gives back the tree with normalised values |
| SelectFilterParser.ItemsRoundTrip | SenSeeActService/src/main/java/nl/rrd/senseeact/service/controller/model/SelectFilterParser.java:70-74 | parsing the generated operand list gives back the normalised operands |
| SelectFilterParser.RoundTripExceptions | SenSeeActService/src/main/java/nl/rrd/senseeact/service/controller/model/SelectFilterParser.java:75-78 | the round trip breaks for an empty And, which is rejected, for a one-operand And, which collapses to the operand, and for a filter on "id" |
| SqlWhereBuilder.ColumnText | DataAccessObjects/src/main/java/nl/rrd/senseeact/dao/sql/SQLWhereBuilder.java:198-207 | "id" is the escaped `_id`; any other column is accepted exactly when the table has it |
| SqlWhereBuilder.Comparison | DataAccessObjects/src/main/java/nl/rrd/senseeact/dao/sql/SQLWhereBuilder.java:196-216 | a comparison is built exactly when its column is accepted, and it adds an argument exactly when the value is not null |
| SqlWhereBuilder.Buffer.Append | DataAccessObjects/src/main/java/nl/rrd/senseeact/dao/sql/SQLWhereBuilder.java:208-213 | appending extends the text and keeps the arguments |
| SqlWhereBuilder.Buffer.AddArg | DataAccessObjects/src/main/java/nl/rrd/senseeact/dao/sql/SQLWhereBuilder.java:214 | adding an argument extends the list and keeps the text |
| SqlWhereBuilder.BuildComparison | DataAccessObjects/src/main/java/nl/rrd/senseeact/dao/sql/SQLWhereBuilder.java:196-216 | the buffer grows by the comparison text and arguments, or the method reports the missing column |
| SqlWhereBuilder.NewWhere | DataAccessObjects/src/main/java/nl/rrd/senseeact/dao/sql/SQLWhereBuilder.java:33-45 | null criteria give a null where and null args; otherwise the where and args are the text and arguments the criteria build to |
| SqlWhereBuilder.BuildCriteria | DataAccessObjects/src/main/java/nl/rrd/senseeact/dao/sql/SQLWhereBuilder.java:77-98 | the recursive build appends exactly the criteria's text and arguments to the shared buffer, or fails with the column error |
| SqlWhereBuilder.BuildOperands | DataAccessObjects/src/main/java/nl/rrd/senseeact/dao/sql/SQLWhereBuilder.java:226-260 | the operand loop appends each operand in parentheses, joined by the separator, and stops at the first error |
| SqlWhereBuilder.BuildOperand | DataAccessObjects/src/main/java/nl/rrd/senseeact/dao/sql/SQLWhereBuilder.java:230-236 | one round appends the separator (except before the first operand) and the parenthesised operand |
| SqlWhereBuilder.PlaceholdersMatchArgs | DataAccessObjects/src/main/java/nl/rrd/senseeact/dao/sql/SQLWhereBuilder.java:196-260 | the WHERE text holds exactly as many "?" placeholders as there are arguments |
| SqlWhereBuilder.ArgsFollowLeaves | DataAccessObjects/src/main/java/nl/rrd/senseeact/dao/sql/SQLWhereBuilder.java:210-215 | the arguments are the texts of the non-null leaf values in left-to-right leaf order |
| SqlWhereBuilder.ComparisonShapes | DataAccessObjects/src/main/java/nl/rrd/senseeact/dao/sql/SQLWhereBuilder.java:108-128 | Equal and NotEqual with null give "IS NULL" and "IS NOT NULL" without an argument; an unknown column is an error |
| SqlWhereBuilder.LogicalShapes | DataAccessObjects/src/main/java/nl/rrd/senseeact/dao/sql/SQLWhereBuilder.java:226-238 | two operands give "(a) AND (b)" |
| SqlWhereBuilder.EmptyShapes | DataAccessObjects/src/main/java/nl/rrd/senseeact/dao/sql/SQLWhereBuilder.java:93-97 | an empty And or Or, and an unknown criteria class, add no text and no arguments |
| DatabaseUser.FindUser | DataAccessObjects/src/main/java/nl/rrd/senseeact/dao/Database.java:1255-1285 | a user found in the criteria is never empty |
| DatabaseUser.FirstUserIsFirst | DataAccessObjects/src/main/java/nl/rrd/senseeact/dao/Database.java:1259-1274 | the operand search returns the user of the first operand that has one, and finds none only when no operand has one |
| DatabaseUser.FindSelectUser | DataAccessObjects/src/main/java/nl/rrd/senseeact/dao/Database.java:1255-1285 | null criteria select no user, and a selected user is never empty |
| DatabaseUser.FindUserMeans | DataAccessObjects/src/main/java/nl/rrd/senseeact/dao/Database.java:1255-1285 | a found user is named by some Equal on "user" in the tree; when none is found, no non-empty user is named |
| DatabaseUser.FindSelectUserExamples | DataAccessObjects/src/main/java/nl/rrd/senseeact/dao/Database.java:1255-1285 | Or and And operands are searched left to right, an empty user is skipped, a number is taken by its text, and NotEqual is ignored |
| DatabaseUser.RemoveUser | DataAccessObjects/src/main/java/nl/rrd/senseeact/dao/Database.java:1296-1339 | an Equal on "user" with the user is removed, and every other leaf is returned unchanged |
| DatabaseUser.KeptOrFails | DataAccessObjects/src/main/java/nl/rrd/senseeact/dao/Database.java:1314-1322 | the Or loop gives null exactly when some operand reduces to null |
| DatabaseUser.OrRemovedWhenAnyOperandIs | DataAccessObjects/src/main/java/nl/rrd/senseeact/dao/Database.java:1313-1328 | an Or is removed exactly when it is empty or some operand is removed |
| DatabaseUser.RemoveUserKeepsMeaning | DataAccessObjects/src/main/java/nl/rrd/senseeact/dao/Database.java:1296-1339 | on records of the user, the reduced criteria match exactly the records the original criteria match, and removed criteria matched every such record (for trees without an empty Or) |
| DatabaseUser.KeptAndKeepsMeaning | DataAccessObjects/src/main/java/nl/rrd/senseeact/dao/Database.java:1299-1312 | dropping removed And operands keeps the conjunction on records of the user |
| DatabaseUser.KeptOrKeepsMeaning | DataAccessObjects/src/main/java/nl/rrd/senseeact/dao/Database.java:1313-1328 | an Or with a removed operand matched every record of the user; otherwise the reduced operands keep the disjunction |
| DatabaseUser.EmptyOrBecomesUnrestricted | DataAccessObjects/src/main/java/nl/rrd/senseeact/dao/Database.java:1323-1324 | an empty Or matches nothing, yet it reduces to null, which selects everything |
| DatabaseUser.RemoveUserExamples | DataAccessObjects/src/main/java/nl/rrd/senseeact/dao/Database.java:1300-1313 | a user Equal is dropped from an And, a lone user Equal leaves null, an Or holding the user Equal becomes null, and other operands stay |
| DatabaseUser.GetInsertUser | DataAccessObjects/src/main/java/nl/rrd/senseeact/dao/Database.java:1021-1036 | an insert user is accepted exactly when the "user" value is present and its text is not empty, and is that text |
| DatabaseUser.CheckInsertUsers | DataAccessObjects/src/main/java/nl/rrd/senseeact/dao/Database.java:895-908 | the loop over the values gives the common insert user, or the first error |
| DatabaseUser.InsertUserMeans | DataAccessObjects/src/main/java/nl/rrd/senseeact/dao/Database.java:895-908 | inserting into a split table is accepted exactly when every map has the same non-empty user, which is then the user of the first map |
| DatabaseUser.DifferentUsersRejected | DataAccessObjects/src/main/java/nl/rrd/senseeact/dao/Database.java:901-905 | maps with two different users are rejected |
| DatabaseUser.SameUsersAccepted | DataAccessObjects/src/main/java/nl/rrd/senseeact/dao/Database.java:895-908 | maps with one user are accepted with that user |
| DatabaseUser.ValuesUser | DataAccessObjects/src/main/java/nl/rrd/senseeact/dao/Database.java:1626-1630 | the values user is absent exactly when "user" is missing or null |
| DatabaseUser.GetUpdateUser | DataAccessObjects/src/main/java/nl/rrd/senseeact/dao/Database.java:1623-1653 | the update user is accepted exactly when the values user is not empty, some user is present and the two users agree when both are present; the values user wins; each of the three failures carries its own message, the last two ending in "; criteria: " and the criteria text |
| DatabaseUser.RouteUpdate | DataAccessObjects/src/main/java/nl/rrd/senseeact/dao/Database.java:1554-1564 | a values map with "id" is rejected; an unsplit table keeps the criteria; a split table routes to the update user with that user's Equal removed |
| DatabaseUser.LoggingRules | DataAccessObjects/src/main/java/nl/rrd/senseeact/dao/Database.java:910-916 | actions are logged only for tables not starting with "_", only when sync is enabled, and for a remote source only when synced remote actions are saved |
| DatabaseUser.NextStamp | DataAccessObjects/src/main/java/nl/rrd/senseeact/dao/Database.java:2130-2134 | a new stamp comes strictly after the previous one, is never before the clock, and is (now, 0) without a previous action |
| DatabaseUser.FindPrevAction | DataAccessObjects/src/main/java/nl/rrd/senseeact/dao/Database.java:2108-2114 | the backward search returns the last action of the table in the batch (LastAction), or reports that there is none |
| DatabaseUser.LastAction | DataAccessObjects/src/main/java/nl/rrd/senseeact/dao/Database.java:2108-2114 | the last action of a table: none exactly when no action has the table, otherwise an action of the table with no later one |
| DatabaseUser.AddDatabaseAction | DataAccessObjects/src/main/java/nl/rrd/senseeact/dao/Database.java:2101-2134 | the new action is appended with the table and record id; its stamp is the next stamp after the last action of the table in the batch, or after the stored stamp when the batch has none, so it comes after the stored stamp and the stamps of each table keep strictly increasing |
| DatabaseActionMerger.MergeWalk | DataAccessObjects/src/main/java/nl/rrd/senseeact/dao/sync/DatabaseActionMerger.java:86-102 | the walk back from an update never produces a delete |
| DatabaseActionMerger.MergeRecord | DataAccessObjects/src/main/java/nl/rrd/senseeact/dao/sync/DatabaseActionMerger.java:68-82 | the merged action keeps the record id, time and order of the newest action; an insert, a delete or a lone action is returned unchanged |
| DatabaseActionMerger.WalkOutcome | DataAccessObjects/src/main/java/nl/rrd/senseeact/dao/sync/DatabaseActionMerger.java:86-101 | the walk fails exactly when a delete is met before any insert, and ends as an insert exactly when an insert is met first |
| DatabaseActionMerger.WalkData | DataAccessObjects/src/main/java/nl/rrd/senseeact/dao/sync/DatabaseActionMerger.java:95-101 | the merged data is the newer-wins overlay of the walked actions' data under the update's own data |
| DatabaseActionMerger.OverlayNewestWins | DataAccessObjects/src/main/java/nl/rrd/senseeact/dao/sync/DatabaseActionMerger.java:161-168 | a key is in the overlay exactly when some action has it, and its value comes from the newest action that has it |
| DatabaseActionMerger.MergeUpdateMeans | DataAccessObjects/src/main/java/nl/rrd/senseeact/dao/sync/DatabaseActionMerger.java:83-104 | merging into an update fails exactly when a delete comes before any insert; otherwise the data is the overlay down to the first insert, and the kind is insert exactly when an insert is reached |
| DatabaseActionMerger.MergeKeepsNewestData | DataAccessObjects/src/main/java/nl/rrd/senseeact/dao/sync/DatabaseActionMerger.java:161-168 | a key of the newest action keeps that action's value |
| DatabaseActionMerger.MergeExamples | DataAccessObjects/src/main/java/nl/rrd/senseeact/dao/sync/DatabaseActionMerger.java:88-99 | update over delete fails; update over insert becomes an insert with the update's time and order; a delete over anything stays the delete |
| DatabaseActionMerger.MergeActionData | DataAccessObjects/src/main/java/nl/rrd/senseeact/dao/sync/DatabaseActionMerger.java:161-168 | keys of the previous data are added only when the data lacks them |
| DatabaseActionMerger.MergeRecordActions | DataAccessObjects/src/main/java/nl/rrd/senseeact/dao/sync/DatabaseActionMerger.java:68-110 | the newest action object is changed in place into the merged action and the count of removed actions is n - 1; on error the action is left unchanged |
| DatabaseActionMerger.MergeUpdate | DataAccessObjects/src/main/java/nl/rrd/senseeact/dao/sync/DatabaseActionMerger.java:83-104 | the walk loop changes the update in place into the merged action, or fails with the delete error and leaves the action unchanged |
| DatabaseActionMerger.OrderMeans | DataAccessObjects/src/main/java/nl/rrd/senseeact/dao/sync/DatabaseActionMerger.java:38-44 | the record order lists every record id of the input exactly once |
| DatabaseActionMerger.OrderFollowsLastAction | DataAccessObjects/src/main/java/nl/rrd/senseeact/dao/sync/DatabaseActionMerger.java:33-44 | each record's group starts with its last action in the input, and the order runs from the record of the latest action back |
| DatabaseActionMerger.GroupByRecord | DataAccessObjects/src/main/java/nl/rrd/senseeact/dao/sync/DatabaseActionMerger.java:38-44 | the backward grouping loop builds the record order and, per record, its actions from new to old |
| DatabaseActionMerger.GroupMap | DataAccessObjects/src/main/java/nl/rrd/senseeact/dao/sync/DatabaseActionMerger.java:38-44 | every record in the order has a non-empty group |
| DatabaseActionMerger.MergeStep | DataAccessObjects/src/main/java/nl/rrd/senseeact/dao/sync/DatabaseActionMerger.java:47-49 | one round merges the next record's group in place and leaves the other groups alone |
| DatabaseActionMerger.MergeGroups | DataAccessObjects/src/main/java/nl/rrd/senseeact/dao/sync/DatabaseActionMerger.java:45-51 | the loop either merges every group, prepending each merged action, or stops at a group whose merge fails |
| DatabaseActionMerger.MergeActions | DataAccessObjects/src/main/java/nl/rrd/senseeact/dao/sync/DatabaseActionMerger.java:31-52 | every record's newest action is changed in place into the merge of its group, and the result lists those actions; an error names a group whose merge fails |
| DatabaseActionMerger.MergedActionsOrder | DataAccessObjects/src/main/java/nl/rrd/senseeact/dao/sync/DatabaseActionMerger.java:31-52 | the result has exactly one action per record id of the input, namely its newest action object, ordered by the position of each record's last action |
| DatabaseActionMerger.OrderNoLonger | DataAccessObjects/src/main/java/nl/rrd/senseeact/dao/sync/DatabaseActionMerger.java:31-52 | there are never more merged records than input actions, so merging never lengthens a list |
| DatabaseSynchronizer.IsTableIncludedMeans | DataAccessObjects/src/main/java/nl/rrd/senseeact/dao/sync/DatabaseSynchronizer.java:224-234 | a table is synchronised iff it is not reserved (leading underscore), not excluded, and the include list is null, empty or contains it |
| DatabaseSynchronizer.ExcludeWinsOverInclude | DataAccessObjects/src/main/java/nl/rrd/senseeact/dao/sync/DatabaseSynchronizer.java:36-37 | an excluded table is never synchronised even when also included; a new synchroniser (empty lists) takes every non-reserved table |
| DatabaseSynchronizer.WriteResourceTableCases | DataAccessObjects/src/main/java/nl/rrd/senseeact/dao/sync/DatabaseSynchronizer.java:194-198 | writing a resource table is refused without the flag, allowed for every table with the flag and an empty list, and otherwise allowed iff the table is listed; a new synchroniser refuses all |
| DatabaseSynchronizer.SyncTables | DataAccessObjects/src/main/java/nl/rrd/senseeact/dao/sync/DatabaseSynchronizer.java:418-427 | the synchronised tables are exactly the database tables for which the include rule holds, and never more than there are |
| DatabaseSynchronizer.FirstIndex | DataAccessObjects/src/main/java/nl/rrd/senseeact/dao/sync/DatabaseSynchronizer.java:437-446 | the position found holds the table and no earlier position does; the length means absent |
| DatabaseSynchronizer.FindTableProgressMeans | DataAccessObjects/src/main/java/nl/rrd/senseeact/dao/sync/DatabaseSynchronizer.java:437-446 | a null list gives null; otherwise the result is the first progress row of the table, and null only when no row is for it |
| DatabaseSynchronizer.FindTimeRangeRestrictionMeans | DataAccessObjects/src/main/java/nl/rrd/senseeact/dao/sync/DatabaseSynchronizer.java:636-644 | a null list gives null; otherwise the result is the first restriction on the table, and null only when none is on it |
| DatabaseSynchronizer.GetSyncProgress | DataAccessObjects/src/main/java/nl/rrd/senseeact/dao/sync/DatabaseSynchronizer.java:267-287 | succeeds iff no two rows of synchronised tables share a table, then returns those rows in order; otherwise fails with the duplicate message naming the second row's table |
| DatabaseSynchronizer.ProgressPartHolds | DataAccessObjects/src/main/java/nl/rrd/senseeact/dao/sync/DatabaseSynchronizer.java:604-613 | the progress criterion selects time > t or (time = t and order > o), exactly the actions the skip rule does not skip |
| DatabaseSynchronizer.ReadSyncCriteriaSelects | DataAccessObjects/src/main/java/nl/rrd/senseeact/dao/sync/DatabaseSynchronizer.java:594-627 | the read criteria never fail, and select a row iff it is not a SELECT, its source is not excluded, it is after the progress stamp, at or before maxTime, and start <= sampleTime < end for a restricted table |
| DatabaseSynchronizer.Limit | DataAccessObjects/src/main/java/nl/rrd/senseeact/dao/sync/DatabaseSynchronizer.java:469-482 | a positive maximum bounds the rows a select returns, which are a prefix of all matching rows |
| DatabaseSynchronizer.ReadSyncActions | DataAccessObjects/src/main/java/nl/rrd/senseeact/dao/sync/DatabaseSynchronizer.java:379-407 | with a positive maxCount the merged actions returned never exceed it; a merge failure is reported as "Can't merge database actions: ..." |
| DatabaseSynchronizer.NextActionGroup | DataAccessObjects/src/main/java/nl/rrd/senseeact/dao/sync/DatabaseSynchronizer.java:860-913 | synchronised actions (stamp at or before the table's progress) are passed over; the group starts at the first new action, holds the new actions validation does not skip, all with the first's action and table (and user for split tables), ends before a new unskipped action that differs, and its last action is the last new action; an action without a table fails with "Table not set" |
| SyncRestrictions.EitherMatches | SenSeeActClient/src/main/java/nl/rrd/senseeact/client/SyncTableRestriction.java:140-143 | the tables kept are exactly the project tables that either restriction matches, never more than the project tables, and keeping all means every project table matches one of them |
| SyncRestrictions.MergedMatchesEither | SenSeeActClient/src/main/java/nl/rrd/senseeact/client/SyncTableRestriction.java:113-122 | with at least one match, the merged include list (empty when all project tables match) matches a project table iff either restriction matches it |
| SyncRestrictions.SyncTableRestriction.constructor | SenSeeActClient/src/main/java/nl/rrd/senseeact/client/SyncTableRestriction.java:22-23 | a new restriction has empty include and exclude lists |
| SyncRestrictions.SyncTableRestriction.SetIncludeTables | SenSeeActClient/src/main/java/nl/rrd/senseeact/client/SyncTableRestriction.java:39-45 | null becomes an empty include list; the exclude list is unchanged |
| SyncRestrictions.SyncTableRestriction.SetExcludeTables | SenSeeActClient/src/main/java/nl/rrd/senseeact/client/SyncTableRestriction.java:79-85 | null becomes an empty exclude list; the include list is unchanged |
| SyncRestrictions.SyncTableRestriction.AddIncludeTable | SenSeeActClient/src/main/java/nl/rrd/senseeact/client/SyncTableRestriction.java:61-63 | appends one table to the include list |
| SyncRestrictions.SyncTableRestriction.AddExcludeTable | SenSeeActClient/src/main/java/nl/rrd/senseeact/client/SyncTableRestriction.java:101-103 | appends one table to the exclude list |
| SyncRestrictions.SyncTableRestriction.MatchingTables | SenSeeActClient/src/main/java/nl/rrd/senseeact/client/SyncTableRestriction.java:139-143 | the loop collects exactly the project tables this or the other restriction matches, in project order |
| SyncRestrictions.SyncTableRestriction.MergeOr | SenSeeActClient/src/main/java/nl/rrd/senseeact/client/SyncTableRestriction.java:135-150 | null for a null or empty project list or when nothing matches; otherwise a new restriction with no excludes whose includes are the matches (none when all match), and which on the project tables matches exactly what either input matches |
| SyncRestrictions.SyncRestriction.constructor | SenSeeActClient/src/main/java/nl/rrd/senseeact/client/SyncRestriction.java:16-19 | a new restriction is enabled with an empty table restriction and no time ranges |
| SyncRestrictions.SyncRestriction.MergeOr | SenSeeActClient/src/main/java/nl/rrd/senseeact/client/SyncRestriction.java:147-167 | both enabled: merged table restriction, disabled when the merge is null; one enabled: its table restriction object is shared; neither: disabled; time ranges are this then other in every case |
| DatabaseCache.SortNamesSorts | DataAccessObjects/src/main/java/nl/rrd/senseeact/dao/DatabaseCache.java:227 | the sort used for the name lists yields a sorted permutation of its input, in String.compareTo order over UTF-16 code units |
| DatabaseCache.AddedAndSorted | DataAccessObjects/src/main/java/nl/rrd/senseeact/dao/DatabaseCache.java:224-227 | adding a new name to a duplicate-free list and sorting gives a strictly sorted list holding exactly the old names and the new one |
| DatabaseCache.RemoveFirstMeans | DataAccessObjects/src/main/java/nl/rrd/senseeact/dao/DatabaseCache.java:768 | List.remove drops one occurrence of the name when present (length one less, multiset minus the name) and otherwise leaves the list as it is |
| DatabaseCache.RemoveKeepsStrict | DataAccessObjects/src/main/java/nl/rrd/senseeact/dao/DatabaseCache.java:767-768 | removing a name from a strictly sorted list keeps it strictly sorted and removes exactly that name |
| DatabaseCache.RemoveNameKeepsStrict | DataAccessObjects/src/main/java/nl/rrd/senseeact/dao/DatabaseCache.java:767-768 | the null-guarded removal leaves an unset list unset and keeps a set list strictly sorted without the name |
| DatabaseCache.RemoveTableKeys | DataAccessObjects/src/main/java/nl/rrd/senseeact/dao/DatabaseCache.java:755-766 | the key loop leaves exactly the entries of the map whose key belongs to another table |
| DatabaseCache.WithoutTableKeeps | DataAccessObjects/src/main/java/nl/rrd/senseeact/dao/DatabaseCache.java:755-766 | an entry survives the removal of a table exactly when its key names another table, with its value unchanged |
| DatabaseCache.CachedMetadata.constructor | DataAccessObjects/src/main/java/nl/rrd/senseeact/dao/DatabaseCache.java:844-858 | new metadata has empty maps, and no logical list, physical list or table metadata yet |
| DatabaseCache.CachedMetadata.GetLogicalTables | DataAccessObjects/src/main/java/nl/rrd/senseeact/dao/DatabaseCache.java:172-180 | returns the list (a copy) or null before it is set |
| DatabaseCache.CachedMetadata.SetLogicalTables | DataAccessObjects/src/main/java/nl/rrd/senseeact/dao/DatabaseCache.java:200-204 | stores the list and changes nothing else |
| DatabaseCache.CachedMetadata.AddLogicalTable | DataAccessObjects/src/main/java/nl/rrd/senseeact/dao/DatabaseCache.java:221-229 | no effect when the list is unset or holds the name; otherwise the list becomes a sorted permutation of the old list plus the name, strictly sorted when the old list had no duplicates, and a strictly sorted list stays strictly sorted |
| DatabaseCache.CachedMetadata.GetPhysicalTables | DataAccessObjects/src/main/java/nl/rrd/senseeact/dao/DatabaseCache.java:258-266 | returns the list (a copy) or null before it is set |
| DatabaseCache.CachedMetadata.SetPhysicalTables | DataAccessObjects/src/main/java/nl/rrd/senseeact/dao/DatabaseCache.java:290-294 | stores the list and changes nothing else |
| DatabaseCache.CachedMetadata.AddPhysicalTable | DataAccessObjects/src/main/java/nl/rrd/senseeact/dao/DatabaseCache.java:315-323 | the same rule as addLogicalTable, on the physical list |
| DatabaseCache.CachedMetadata.RemovePhysicalTable | DataAccessObjects/src/main/java/nl/rrd/senseeact/dao/DatabaseCache.java:783-789 | no effect on an unset list; otherwise one occurrence of the name is removed; nothing else changes |
| DatabaseCache.CachedMetadata.RemoveUserTable | DataAccessObjects/src/main/java/nl/rrd/senseeact/dao/DatabaseCache.java:798-805 | removes exactly the one (user, table) key from the action tables and the user-table keys |
| DatabaseCache.CachedMetadata.RemoveLogicalTableAsWritten | DataAccessObjects/src/main/java/nl/rrd/senseeact/dao/DatabaseCache.java:752-775 | every (user, table) entry of the table is dropped and other entries kept; the logical list loses the name when set; it fails with a NullPointerException exactly when the table metadata was never loaded, leaving the split-by-user entry |
| DatabaseCache.CachedMetadata.RemoveLogicalTable | DataAccessObjects/src/main/java/nl/rrd/senseeact/dao/DatabaseCache.java:752-775 | the same, with the table metadata guarded like the logical list, so every per-table cache loses the table and physical tables are untouched |
| DatabaseCache.RemoveBeforeMetadataLoaded | DataAccessObjects/src/main/java/nl/rrd/senseeact/dao/DatabaseCache.java:767-772 | on fresh metadata with a logical list set, removing a logical table throws |
| DatabaseCache.Cache.ContainsDatabase | DataAccessObjects/src/main/java/nl/rrd/senseeact/dao/DatabaseCache.java:65-69 | true exactly when metadata is cached for the database |
| DatabaseCache.Cache.RemoveDatabase | DataAccessObjects/src/main/java/nl/rrd/senseeact/dao/DatabaseCache.java:76-80 | drops the database's metadata and nothing else |
| DatabaseCache.Cache.GetCachedMetadata | DataAccessObjects/src/main/java/nl/rrd/senseeact/dao/DatabaseCache.java:813-820 | returns the cached metadata, or creates empty metadata, stores it under the database name and returns it |
| DatabaseFieldScanner.AnnotatedFieldsMeans | DataAccessObjects/src/main/java/nl/rrd/senseeact/dao/DatabaseFieldScanner.java:48-57 | the declared-field scan yields exactly the specifications of the annotated fields, never more than there are fields |
| DatabaseFieldScanner.AncestorFieldsFirst | DataAccessObjects/src/main/java/nl/rrd/senseeact/dao/DatabaseFieldScanner.java:43-47 | the fields of every superclass come first: the scan of an ancestor is a prefix of the scan of the class |
| DatabaseFieldScanner.AncestorShallower | DataAccessObjects/src/main/java/nl/rrd/senseeact/dao/DatabaseFieldScanner.java:44-46 | a superclass has a shorter superclass chain, so the recursion ends and never meets the class itself |
| DatabaseFieldScanner.RemoveKeyMeans | DataAccessObjects/src/main/java/nl/rrd/senseeact/dao/DatabaseFieldScanner.java:38 | LinkedHashMap.remove keeps the other entries (and distinct keys) and drops exactly one entry when the key is present |
| DatabaseFieldScanner.PutEntryAppends | DataAccessObjects/src/main/java/nl/rrd/senseeact/dao/DatabaseFieldScanner.java:39 | putting a new key appends it as most recently used |
| DatabaseFieldScanner.PutEntryMembers | DataAccessObjects/src/main/java/nl/rrd/senseeact/dao/DatabaseFieldScanner.java:39 | after a put the map holds the new entry and the entries of the other keys, and grows only for a new key |
| DatabaseFieldScanner.PutEntryKeepsKeys | DataAccessObjects/src/main/java/nl/rrd/senseeact/dao/DatabaseFieldScanner.java:39 | a put keeps the existing keys in their places |
| DatabaseFieldScanner.PutEntryDistinct | DataAccessObjects/src/main/java/nl/rrd/senseeact/dao/DatabaseFieldScanner.java:39 | a put keeps the keys distinct |
| DatabaseFieldScanner.PutKeepsInvariant | DataAccessObjects/src/main/java/nl/rrd/senseeact/dao/DatabaseFieldScanner.java:58-65 | evicting when full and then putting a scanned class keeps at most 100 distinct classes each holding its scanned fields |
| DatabaseFieldScanner.MissOnFullEvictsOldest | DataAccessObjects/src/main/java/nl/rrd/senseeact/dao/DatabaseFieldScanner.java:59-64 | a miss on a full cache evicts the first (least recently used) class, appends the new one, and the size stays 100 |
| DatabaseFieldScanner.TouchKeepsInvariant | DataAccessObjects/src/main/java/nl/rrd/senseeact/dao/DatabaseFieldScanner.java:36-41 | moving a hit to the end keeps the cache invariant |
| DatabaseFieldScanner.MissStaysMissing | DataAccessObjects/src/main/java/nl/rrd/senseeact/dao/DatabaseFieldScanner.java:43-47 | scanning the superclass chain and evicting never makes the class itself cached |
| DatabaseFieldScanner.HitIsScan | DataAccessObjects/src/main/java/nl/rrd/senseeact/dao/DatabaseFieldScanner.java:36-40 | the stored entry of a cached class holds what a scan yields |
| DatabaseFieldScanner.AppendAnnotated | DataAccessObjects/src/main/java/nl/rrd/senseeact/dao/DatabaseFieldScanner.java:48-57 | the declared-field loop appends the annotated fields' specifications in declaration order |
| DatabaseFieldScanner.FieldScanner.GetDatabaseFields | DataAccessObjects/src/main/java/nl/rrd/senseeact/dao/DatabaseFieldScanner.java:33-67 | returns what a scan yields (superclass fields first); the class ends up most recently used; a hit moves it to the end and changes nothing else; the cache keeps at most 100 distinct, consistent classes and gains only the class and its superclasses |
| DatabaseFieldScanner.FieldScanner.GetDatabaseFieldNames | DataAccessObjects/src/main/java/nl/rrd/senseeact/dao/DatabaseFieldScanner.java:77-85 | the names list has the scanned fields' names, in the same order and of the same length |
| DatabaseListenerRepository.RemoveOneMeans | DataAccessObjects/src/main/java/nl/rrd/senseeact/dao/listener/DatabaseListenerRepository.java:78 | List.remove leaves a list without the listener unchanged and otherwise makes it one shorter |
| DatabaseListenerRepository.RemoveOnePermutes | DataAccessObjects/src/main/java/nl/rrd/senseeact/dao/listener/DatabaseListenerRepository.java:78 | List.remove takes exactly one occurrence of the listener out (multiset difference) |
| DatabaseListenerRepository.EmptiedOnlyBySingle | DataAccessObjects/src/main/java/nl/rrd/senseeact/dao/listener/DatabaseListenerRepository.java:78-80 | a non-empty list becomes empty exactly when the listener was its only element |
| DatabaseListenerRepository.RemoveOneAfterAppend | DataAccessObjects/src/main/java/nl/rrd/senseeact/dao/listener/DatabaseListenerRepository.java:62 | removing a listener just appended to a list that did not hold it restores the list |
| DatabaseListenerRepository.AddedMeans | DataAccessObjects/src/main/java/nl/rrd/senseeact/dao/listener/DatabaseListenerRepository.java:57-64 | adding appends the listener to the database's list (duplicates allowed), leaves other databases alone and creates no empty list |
| DatabaseListenerRepository.RemovedMeans | DataAccessObjects/src/main/java/nl/rrd/senseeact/dao/listener/DatabaseListenerRepository.java:72-82 | removing takes one occurrence out of the database's list (an unknown database has the empty list) and leaves other databases alone |
| DatabaseListenerRepository.RemovedDropsEmptied | DataAccessObjects/src/main/java/nl/rrd/senseeact/dao/listener/DatabaseListenerRepository.java:79-80 | the database's entry disappears exactly when its last listener is removed, and no empty list is ever stored |
| DatabaseListenerRepository.RemoveUnknownIsNoOp | DataAccessObjects/src/main/java/nl/rrd/senseeact/dao/listener/DatabaseListenerRepository.java:75-78 | removing an unknown listener or from an unknown database changes nothing |
| DatabaseListenerRepository.AddRemoveRoundTrip | DataAccessObjects/src/main/java/nl/rrd/senseeact/dao/listener/DatabaseListenerRepository.java:57-82 | adding a listener that was not registered and removing it again restores the registry |
| DatabaseListenerRepository.ListenerRepository.constructor | DataAccessObjects/src/main/java/nl/rrd/senseeact/dao/listener/DatabaseListenerRepository.java:27-36 | both registries start empty, so Valid holds |
| DatabaseListenerRepository.ListenerRepository.AddDatabaseListener | DataAccessObjects/src/main/java/nl/rrd/senseeact/dao/listener/DatabaseListenerRepository.java:57-64 | the listener map becomes Added(old, database, listener); the action listeners are unchanged; Valid, no empty list stored in either map, is kept |
| DatabaseListenerRepository.ListenerRepository.RemoveDatabaseListener | DataAccessObjects/src/main/java/nl/rrd/senseeact/dao/listener/DatabaseListenerRepository.java:72-82 | the listener map becomes Removed(old, database, listener); the action listeners are unchanged; Valid, no empty list stored in either map, is kept |
| DatabaseListenerRepository.ListenerRepository.GetDatabaseListeners | DataAccessObjects/src/main/java/nl/rrd/senseeact/dao/listener/DatabaseListenerRepository.java:90-98 | a copy of the database's list, empty for an unknown database |
| DatabaseListenerRepository.ListenerRepository.AddDatabaseActionListener | DataAccessObjects/src/main/java/nl/rrd/senseeact/dao/listener/DatabaseListenerRepository.java:106-113 | the action listener map becomes Added(old, database, listener); the database listeners are unchanged; Valid, no empty list stored in either map, is kept |
| DatabaseListenerRepository.ListenerRepository.RemoveDatabaseActionListener | DataAccessObjects/src/main/java/nl/rrd/senseeact/dao/listener/DatabaseListenerRepository.java:121-131 | the action listener map becomes Removed(old, database, listener); the database listeners are unchanged; Valid, no empty list stored in either map, is kept |
| DatabaseListenerRepository.ListenerRepository.GetDatabaseActionListeners | DataAccessObjects/src/main/java/nl/rrd/senseeact/dao/listener/DatabaseListenerRepository.java:139-148 | a copy of the database's action listener list, empty for an unknown database |
| DatabaseListenerRepository.ListenerRepository.NotifyDatabaseEvent | DataAccessObjects/src/main/java/nl/rrd/senseeact/dao/listener/DatabaseListenerRepository.java:156-161 | exactly the listeners of the event's database are called, once each, in registration order, with the event |
| DatabaseListenerRepository.ListenerRepository.NotifyAddDatabaseActions | DataAccessObjects/src/main/java/nl/rrd/senseeact/dao/listener/DatabaseListenerRepository.java:172-178 | exactly the action listeners of the database are called, once each, in registration order, with the database, table and actions |
| UserCache.AtIndex | SenSeeActService/src/main/java/nl/rrd/senseeact/service/model/UserCache.java:186 | the position of the first `@` of an address that has one |
| UserCache.EmailLocal | SenSeeActService/src/main/java/nl/rrd/senseeact/service/model/UserCache.java:186-187 | the local part is the text before the first `@` and holds no `@` |
| UserCache.IndexOf | SenSeeActService/src/main/java/nl/rrd/senseeact/service/model/UserCache.java:201 | `indexOf` gives the first position of the user, or -1 exactly when it is absent |
| UserCache.ReplacedMembers | SenSeeActService/src/main/java/nl/rrd/senseeact/service/model/UserCache.java:201-203 | replacing at the index of the old user swaps the two users, keeps the length and leaves no duplicate |
| UserCache.RemoveOneMembers | SenSeeActService/src/main/java/nl/rrd/senseeact/service/model/UserCache.java:237 | `remove(user)` on a list without duplicates takes out exactly that user |
| UserCache.AddKeepsValid | SenSeeActService/src/main/java/nl/rrd/senseeact/service/model/UserCache.java:182-197 | adding a user with a new ID and a new address keeps the list and the three indexes consistent and puts the user at the end and in every index |
| UserCache.LoadedValid | SenSeeActService/src/main/java/nl/rrd/senseeact/service/model/UserCache.java:20-25 | the cache loaded from users with distinct IDs and addresses is consistent and lists them in load order |
| UserCache.UpdateKeepsValid | SenSeeActService/src/main/java/nl/rrd/senseeact/service/model/UserCache.java:199-231 | updating to an address no other user has keeps the cache consistent, the number of users, and indexes the new record under its ID and address |
| UserCache.UpdateInPlace | SenSeeActService/src/main/java/nl/rrd/senseeact/service/model/UserCache.java:199-204 | an update replaces the user with that ID at its own position and moves no other user |
| UserCache.DeleteKeepsValid | SenSeeActService/src/main/java/nl/rrd/senseeact/service/model/UserCache.java:233-249 | deleting keeps the cache consistent and removes exactly the user with that ID; an unknown ID changes nothing |
| UserCache.LocalsAfterRemove | SenSeeActService/src/main/java/nl/rrd/senseeact/service/model/UserCache.java:243-247 | dropping a user from its local-part list, and an emptied list from the index, keeps the local-part index exact |
| UserCache.LocalsAfterSwapMoved | SenSeeActService/src/main/java/nl/rrd/senseeact/service/model/UserCache.java:219-229 | moving a user to the end of the list of its new local part keeps the local-part index exact |
| UserCache.LocalsAfterSwapInPlace | SenSeeActService/src/main/java/nl/rrd/senseeact/service/model/UserCache.java:213-218 | replacing a user in the list of an unchanged local part keeps the local-part index exact |
| UserCache.EmailIndexAfterSwap | SenSeeActService/src/main/java/nl/rrd/senseeact/service/model/UserCache.java:210-212 | dropping the old address and entering the new one keeps the email index exact |
| UserCache.Filter | SenSeeActService/src/main/java/nl/rrd/senseeact/service/model/UserCache.java:145-149 | the result holds exactly the users the filter accepts and is no longer than the list |
| UserCache.UserCache.constructor | SenSeeActService/src/main/java/nl/rrd/senseeact/service/model/UserCache.java:20-25 | the cache equals the users of the database added one by one |
| UserCache.UserCache.AddUser | SenSeeActService/src/main/java/nl/rrd/senseeact/service/model/UserCache.java:182-197 | the new state is the old one with the user appended and indexed |
| UserCache.UserCache.UpdateUser | SenSeeActService/src/main/java/nl/rrd/senseeact/service/model/UserCache.java:199-231 | the new state is the old one with the user replaced in the list and moved in the indexes |
| UserCache.UserCache.DeleteUser | SenSeeActService/src/main/java/nl/rrd/senseeact/service/model/UserCache.java:233-249 | the new state is the old one without the user, with an emptied local-part entry dropped |
| UserCache.UserCache.FindByUserid | SenSeeActService/src/main/java/nl/rrd/senseeact/service/model/UserCache.java:73-81 | found exactly when the ID is indexed; in a consistent cache exactly when a listed user has the ID, and then that user |
| UserCache.UserCache.FindByEmail | SenSeeActService/src/main/java/nl/rrd/senseeact/service/model/UserCache.java:93-101 | the lower-cased address is looked up; in a consistent cache found exactly when a listed user has it |
| UserCache.UserCache.Find | SenSeeActService/src/main/java/nl/rrd/senseeact/service/model/UserCache.java:56-61 | by user ID from protocol version 6.0.0 on, by lower-cased address before |
| UserCache.UserCache.EmailExists | SenSeeActService/src/main/java/nl/rrd/senseeact/service/model/UserCache.java:110-121 | true exactly when some user has the lower-cased address as email or as pending email |
| UserCache.UserCache.FindByEmailLocal | SenSeeActService/src/main/java/nl/rrd/senseeact/service/model/UserCache.java:130-141 | in a consistent cache, exactly the users whose local part is the lower-cased argument |
| UserCache.UserCache.GetUsers | SenSeeActService/src/main/java/nl/rrd/senseeact/service/model/UserCache.java:143-149 | exactly the users the filter (or no filter) accepts, in cache order |
| UserCache.UserCache.GetCount | SenSeeActService/src/main/java/nl/rrd/senseeact/service/model/UserCache.java:176-180 | the number of cached users |
| ServiceUser.CheckAccessibleUser | SenSeeActService/src/main/java/nl/rrd/senseeact/service/model/User.java:375-414 | a granted access returns the requested user; a refusal names the subject |
| ServiceUser.AccessibleUserMeans | SenSeeActService/src/main/java/nl/rrd/senseeact/service/model/User.java:375-414 | access is granted exactly to admins, to the user itself, and to professionals reaching a non-admin target through a group or a project; a missing target is refused |
| ServiceUser.AccessibleUserLimits | SenSeeActService/src/main/java/nl/rrd/senseeact/service/model/User.java:389-396 | a patient reaches only itself; an admin target is refused to every other non-admin |
| ServiceUser.Matching | SenSeeActService/src/main/java/nl/rrd/senseeact/service/model/User.java:847-849 | the matching restrictions are exactly those whose module is a module of the table and whose mode matches |
| ServiceUser.HullAppend | SenSeeActService/src/main/java/nl/rrd/senseeact/service/model/User.java:855-868 | a further matching restriction takes the earlier start and the later end, an absent bound absorbing |
| ServiceUser.HullMeans | SenSeeActService/src/main/java/nl/rrd/senseeact/service/model/User.java:846-872 | the range starts at the earliest start and ends at the latest end of the matching restrictions, and is open on a side exactly when some restriction is |
| ServiceUser.FindAccessibleProjectUserRange | SenSeeActService/src/main/java/nl/rrd/senseeact/service/model/User.java:832-876 | full range without a restriction list; none for a table in no module or without a match; otherwise the hull of the matching restrictions |
| ServiceUser.MatchingAppend | SenSeeActService/src/main/java/nl/rrd/senseeact/service/model/User.java:846-850 | the loop filters the restrictions in order |
| ServiceUser.AccessibleRangeCovers | SenSeeActService/src/main/java/nl/rrd/senseeact/service/model/User.java:846-872 | the granted range contains the range of every matching restriction |
| ServiceUser.CheckAccessibleProjectUser | SenSeeActService/src/main/java/nl/rrd/senseeact/service/model/User.java:765-819 | a granted access is for the requested user; a refusal names the subject |
| ServiceUser.ProjectAccessMeans | SenSeeActService/src/main/java/nl/rrd/senseeact/service/model/User.java:765-819 | only an access record restricts the date range, never for admins or the user itself; without a record the decision is that of checkAccessibleUser with the full range |
| ProjectUserAccess.CheckMatchesRange | SenSeeActService/src/main/java/nl/rrd/senseeact/service/model/ProjectUserAccess.java:85-102 | a request passes exactly when it starts at or after the start day and ends at or before the end day, where an absent bound does not restrict and an absent request bound fails a present one |
| ProjectUserAccess.CheckObjectMatchesRange | SenSeeActService/src/main/java/nl/rrd/senseeact/service/model/ProjectUserAccess.java:61-73 | objects that are not samples pass; a failing sample gets the sample message |
| ProjectUserAccess.UnrestrictedAllowsAll | SenSeeActService/src/main/java/nl/rrd/senseeact/service/model/ProjectUserAccess.java:85-102 | without bounds every request passes, unbounded ones included |
| ProjectUserAccess.SubrangeAllowed | SenSeeActService/src/main/java/nl/rrd/senseeact/service/model/ProjectUserAccess.java:85-102 | a range inside an allowed range is allowed |
| ProjectUserAccess.SampleWithinDays | SenSeeActService/src/main/java/nl/rrd/senseeact/service/model/ProjectUserAccess.java:61-73 | a sample passes exactly when it is at or after the start of the start day and strictly before the start of the end day |
| ProjectUserAccess.SampleEdges | SenSeeActService/src/main/java/nl/rrd/senseeact/service/model/ProjectUserAccess.java:61-73 | a sample at the start of the start day passes and one at the start of the end day fails |
| PermissionManager.MatchesValueMeans | SenSeeActService/src/main/java/nl/rrd/senseeact/service/PermissionManager.java:108-118 | a required value is matched exactly by the wildcard "*" or by an equal value; null matches only null |
| PermissionManager.MatchesPermissionLoop | SenSeeActService/src/main/java/nl/rrd/senseeact/service/PermissionManager.java:91-106 | the key loop answers exactly whether the names agree and every required parameter is present with a matching value |
| PermissionManager.MatchesPermissionLaxity | SenSeeActService/src/main/java/nl/rrd/senseeact/service/PermissionManager.java:91-106 | without required parameters only the name counts; parameters the requirement does not name are ignored |
| PermissionManager.WildcardMatches | SenSeeActService/src/main/java/nl/rrd/senseeact/service/PermissionManager.java:108-111 | a "*" parameter matches any required value, null included |
| PermissionManager.HasAtomicPermissionLoop | SenSeeActService/src/main/java/nl/rrd/senseeact/service/PermissionManager.java:82-89 | the loop answers whether some available atomic permission matches the required one |
| PermissionManager.AtomicOf | SenSeeActService/src/main/java/nl/rrd/senseeact/service/PermissionManager.java:64-80 | the available atomic permissions are exactly those of some record |
| PermissionManager.HasPermissionLoop | SenSeeActService/src/main/java/nl/rrd/senseeact/service/PermissionManager.java:64-80 | true exactly when every atomic permission of the requirement is matched by an atomic permission of some record |
| PermissionManager.HasPermissionMonotone | SenSeeActService/src/main/java/nl/rrd/senseeact/service/PermissionManager.java:64-80 | more records never take a held permission away |
| PermissionManager.CheckPermission | SenSeeActService/src/main/java/nl/rrd/senseeact/service/PermissionManager.java:44-52 | null parameters count as empty; the check passes exactly when the permission is held and otherwise fails with the "Required permission ... not found" message |
| PermissionManager.FindExact | SenSeeActService/src/main/java/nl/rrd/senseeact/service/PermissionManager.java:200-210 | a found row is the exact row; nothing found means no such row; on a table without null maps the lookup never fails; a failure means a null-map row of the permission exists |
| PermissionManager.PermissionStore.FindExactPermission | SenSeeActService/src/main/java/nl/rrd/senseeact/service/PermissionManager.java:200-210 | the loop over the table returns the lookup result |
| PermissionManager.GrantedAsWritten | SenSeeActService/src/main/java/nl/rrd/senseeact/service/PermissionManager.java:156-169 | after a successful grant the exact row, with the parameters as given, is in the table |
| PermissionManager.GrantWithoutParamsBreaksLookup | SenSeeActService/src/main/java/nl/rrd/senseeact/service/PermissionManager.java:156-169 | a grant without parameters stores a null map, after which every grant or revoke of that permission for the user fails |
| PermissionManager.Granted | SenSeeActService/src/main/java/nl/rrd/senseeact/service/PermissionManager.java:156-169 | with null counted as empty, a grant never fails, stores no null map and leaves the exact row in the table |
| PermissionManager.GrantIdempotent | SenSeeActService/src/main/java/nl/rrd/senseeact/service/PermissionManager.java:156-169 | granting twice is granting once |
| PermissionManager.Revoked | SenSeeActService/src/main/java/nl/rrd/senseeact/service/PermissionManager.java:176-187 | a revoke never fails on a table without null maps, keeps that property and deletes at most one row |
| PermissionManager.RevokeAbsentIsNoOp | SenSeeActService/src/main/java/nl/rrd/senseeact/service/PermissionManager.java:176-187 | revoking a permission that is not granted changes nothing |
| PermissionManager.GrantRevokeRoundTrip | SenSeeActService/src/main/java/nl/rrd/senseeact/service/PermissionManager.java:156-187 | revoking what a grant just added restores the table |
| PermissionManager.RevokedAll | SenSeeActService/src/main/java/nl/rrd/senseeact/service/PermissionManager.java:189-198 | exactly the rows of the user and permission are deleted |
| PermissionManager.PermissionStore.GrantAsWritten | SenSeeActService/src/main/java/nl/rrd/senseeact/service/PermissionManager.java:156-169 | the table becomes the as-written grant of the old table, or stays as it was when the lookup fails |
| PermissionManager.PermissionStore.Grant | SenSeeActService/src/main/java/nl/rrd/senseeact/service/PermissionManager.java:156-169 | the table becomes the corrected grant of the old table |
| PermissionManager.PermissionStore.Revoke | SenSeeActService/src/main/java/nl/rrd/senseeact/service/PermissionManager.java:176-187 | the table becomes the revoke of the old table |
| PermissionManager.PermissionStore.RevokeAll | SenSeeActService/src/main/java/nl/rrd/senseeact/service/PermissionManager.java:189-198 | the table becomes the old table without the user's rows of the permission |
| AuthController.LoginStep | SenSeeActService/src/main/java/nl/rrd/senseeact/service/controller/AuthControllerExecution.java:419-461 | a blocked account is rejected and unchanged; otherwise the attempt succeeds exactly for a right password on an active account; a consistent counter (at most 10, block only at 10) stays consistent |
| AuthController.SuccessResets | SenSeeActService/src/main/java/nl/rrd/senseeact/service/controller/AuthControllerExecution.java:451-455 | a right password outside a block resets the counter and clears the block |
| AuthController.FailuresCount | SenSeeActService/src/main/java/nl/rrd/senseeact/service/controller/AuthControllerExecution.java:436-445 | from an unblocked state, consecutive failures count up one by one without blocking until the tenth, which blocks the account until 60 s after it |
| AuthController.FailureAtMaximumExtendsBlock | SenSeeActService/src/main/java/nl/rrd/senseeact/service/controller/AuthControllerExecution.java:436-445 | at the saturated counter each failure blocks the account for exactly the next 60 s, inclusive |
| AuthController.AuthUser.Login | SenSeeActService/src/main/java/nl/rrd/senseeact/service/controller/AuthControllerExecution.java:419-461 | the records are cleaned and the counter, block and result become those of one login attempt |
| AuthController.EmailVerificationCode | SenSeeActService/src/main/java/nl/rrd/senseeact/service/controller/AuthControllerExecution.java:1567-1578 | the current code is reused exactly while it is younger than 24 hours, otherwise the new random code is used |
| AuthController.CodeSent | SenSeeActService/src/main/java/nl/rrd/senseeact/service/controller/AuthControllerExecution.java:1544-1551 | sending stores the code with the current time and leaves the email fields alone |
| AuthController.VerifyEmailStep | SenSeeActService/src/main/java/nl/rrd/senseeact/service/controller/AuthControllerExecution.java:321-352 | verification succeeds exactly for the stored code within 24 hours; success verifies the email, promotes a pending email and clears the code; failure clears the code and time only |
| AuthController.SentCodeVerifies | SenSeeActService/src/main/java/nl/rrd/senseeact/service/controller/AuthControllerExecution.java:321-352 | a sent code is accepted up to 24 hours after sending, not later, and only once |
| AuthController.ResentCodeKept | SenSeeActService/src/main/java/nl/rrd/senseeact/service/controller/AuthControllerExecution.java:1567-1578 | a mail sent again within 24 hours keeps the code and restarts its validity |
| AuthController.AuthUser.VerifyEmail | SenSeeActService/src/main/java/nl/rrd/senseeact/service/controller/AuthControllerExecution.java:321-352 | the email fields and the result become those of the verification; nothing else changes |
| AuthController.RecentTimes | SenSeeActService/src/main/java/nl/rrd/senseeact/service/controller/AuthControllerExecution.java:1014-1027 | exactly the times at or after the bound are kept |
| AuthController.RecentTimesIdempotent | SenSeeActService/src/main/java/nl/rrd/senseeact/service/controller/AuthControllerExecution.java:1014-1027 | removing old times twice is removing them once |
| AuthController.CleanMfaRecordVerifyTimes | SenSeeActService/src/main/java/nl/rrd/senseeact/service/controller/AuthControllerExecution.java:1014-1027 | the loop keeps the recent times and reports a change exactly when an old time was present |
| AuthController.CleanedMfa | SenSeeActService/src/main/java/nl/rrd/senseeact/service/controller/AuthControllerExecution.java:992-1012 | every cleaned record comes from a record of the list, and every record that cleaning keeps is in the result |
| AuthController.CleanedMfaBounds | SenSeeActService/src/main/java/nl/rrd/senseeact/service/controller/AuthControllerExecution.java:992-1012 | after cleaning, verified records hold only verify times of the last 15 minutes, unverified records were created in the last 60 minutes, and every verified record is kept |
| AuthController.CleanedMfaIdempotent | SenSeeActService/src/main/java/nl/rrd/senseeact/service/controller/AuthControllerExecution.java:992-1012 | cleaning twice at the same time is cleaning once |
| AuthController.CleanMfaRecords | SenSeeActService/src/main/java/nl/rrd/senseeact/service/controller/AuthControllerExecution.java:992-1012 | the loop over the records computes the cleaned list |
| AuthController.CleanedUnverifiedCount | SenSeeActService/src/main/java/nl/rrd/senseeact/service/controller/AuthControllerExecution.java:1029-1041 | after cleaning, the add limit counts exactly the unverified records added in the last 60 minutes |
| AuthController.CheckMaxMfaAddCount | SenSeeActService/src/main/java/nl/rrd/senseeact/service/controller/AuthControllerExecution.java:1029-1041 | adding is refused exactly at 10 or more unverified records, with the limit message |
| AuthController.CheckMaxMfaVerifyCount | SenSeeActService/src/main/java/nl/rrd/senseeact/service/controller/AuthControllerExecution.java:1043-1052 | a verification request is refused exactly at 10 or more recorded times, with the limit message |
| AuthController.VerifyLimitWindow | SenSeeActService/src/main/java/nl/rrd/senseeact/service/controller/AuthControllerExecution.java:1043-1052 | after cleaning, the verify limit counts the requests of the last 15 minutes |
| AuthController.CheckMaxMfaType | SenSeeActService/src/main/java/nl/rrd/senseeact/service/controller/AuthControllerExecution.java:1054-1063 | the type limit fails exactly when the count of verified records of the type equals the maximum, with the message naming the maximum in decimal and the type |
| AuthController.TypeLimitOnlyAtExactCount | SenSeeActService/src/main/java/nl/rrd/senseeact/service/controller/AuthControllerExecution.java:1054-1064 | a count above the maximum passes the type limit |
| AuthController.PartialPhoneNumber | SenSeeActService/src/main/java/nl/rrd/senseeact/service/controller/AuthControllerExecution.java:1198-1204 | numbers shorter than 5 are unchanged; otherwise the length is kept, the first 3 and last 2 characters stay and the rest is '*' |
| AuthController.PartialPhoneNumberIdempotent | SenSeeActService/src/main/java/nl/rrd/senseeact/service/controller/AuthControllerExecution.java:1198-1204 | masking a masked number changes nothing |
| AuthController.FindMfaRecord | SenSeeActService/src/main/java/nl/rrd/senseeact/service/controller/AuthControllerExecution.java:1347-1354 | the found record is the first with the id; nothing found means no record has it |
| AuthController.MovedToFront | SenSeeActService/src/main/java/nl/rrd/senseeact/service/controller/AuthControllerExecution.java:1386-1387 | the moved record is first and the list is a permutation of the old one |
| AuthController.MovedToFrontMeans | SenSeeActService/src/main/java/nl/rrd/senseeact/service/controller/AuthControllerExecution.java:1386-1387 | the moved record is then the first with its id; records before it move up by one and records after it keep their place |
| AuthController.DefaultMfaSet | SenSeeActService/src/main/java/nl/rrd/senseeact/service/controller/AuthControllerExecution.java:1378-1391 | an unknown or unverified id is "MFA record not found"; otherwise the verified record with the id is first and the list is a permutation of the old one |
| AuthController.SetDefaultIdempotent | SenSeeActService/src/main/java/nl/rrd/senseeact/service/controller/AuthControllerExecution.java:1378-1391 | making the default record the default again changes nothing |
| AuthController.AuthUser.SetDefaultMfaRecord | SenSeeActService/src/main/java/nl/rrd/senseeact/service/controller/AuthControllerExecution.java:1378-1391 | the records are cleaned and then reordered as the default choice says; the other fields are unchanged |
| UserController.CopiedFields | SenSeeActService/src/main/java/nl/rrd/senseeact/service/controller/UserController.java:370-377 | a copyable field that was set takes the input's value; forbidden fields, "email" and unset fields keep their values |
| UserController.ForbiddenFieldsKept | SenSeeActService/src/main/java/nl/rrd/senseeact/service/controller/UserController.java:51-61 | the fields a client may not change, and "email", keep their values through the generic update |
| UserController.CopyIdempotent | SenSeeActService/src/main/java/nl/rrd/senseeact/service/controller/UserController.java:370-377 | writing the same input twice is writing it once |
| UserController.CopyFields | SenSeeActService/src/main/java/nl/rrd/senseeact/service/controller/UserController.java:370-377 | the loop over the set fields computes the updated profile |
| UserController.EmailChange | SenSeeActService/src/main/java/nl/rrd/senseeact/service/controller/UserController.java:598-626 | afterwards the user heads for the new address, as pending or as current email; the state is NOT_CHANGED exactly when the address is the current or the pending one; choosing the current address back clears the pending address and its code; the verified flag is never changed |
| UserController.VerifiedEmailKept | SenSeeActService/src/main/java/nl/rrd/senseeact/service/controller/UserController.java:618-620 | a verified, non-temporary email is kept while the new one waits for verification |
| UserController.EmailChangeIdempotent | SenSeeActService/src/main/java/nl/rrd/senseeact/service/controller/UserController.java:598-626 | asking for the same address again is NOT_CHANGED and changes nothing |
| UserController.UserEmailSet | SenSeeActService/src/main/java/nl/rrd/senseeact/service/controller/UserController.java:573-595 | no new address is no change; the address is lower-cased; the request is forbidden exactly when the address is in use and the state is a change |
| UserController.EmailUser.SetUserEmailGetState | SenSeeActService/src/main/java/nl/rrd/senseeact/service/controller/UserController.java:598-626 | the user's fields and the state become those of the email change |
| UserController.EmailUser.SetUserEmail | SenSeeActService/src/main/java/nl/rrd/senseeact/service/controller/UserController.java:573-595 | the user's fields and the result become those of setting the email |
| DataExporter.StepMonotone | SenSeeActService/src/main/java/nl/rrd/senseeact/service/export/DataExporter.java:61-81 | the status never goes back; an ended exporter is never changed; only a running exporter fails or completes and only an idle one starts |
| DataExporter.StatusNoticeOnTransition | SenSeeActService/src/main/java/nl/rrd/senseeact/service/export/DataExporter.java:202-226 | the listener hears of a status exactly when the status actually changes to FAILED or COMPLETED |
| DataExporter.StepValid | SenSeeActService/src/main/java/nl/rrd/senseeact/service/export/DataExporter.java:202-211 | each operation keeps the invariant: an error exactly when FAILED, nothing recorded while IDLE, a thread once started and a closed client once cancelled |
| DataExporter.RunValid | SenSeeActService/src/main/java/nl/rrd/senseeact/service/export/DataExporter.java:29 | every run from a valid state, such as a fresh exporter, stays valid and never returns to an earlier status; an ended exporter stays as it is |
| DataExporter.StepAppends | SenSeeActService/src/main/java/nl/rrd/senseeact/service/export/DataExporter.java:276-304 | an operation only appends to the notices and the log messages |
| DataExporter.RunAppends | SenSeeActService/src/main/java/nl/rrd/senseeact/service/export/DataExporter.java:276-304 | a run only appends to the notices and the log messages |
| DataExporter.Exporter.constructor | SenSeeActService/src/main/java/nl/rrd/senseeact/service/export/DataExporter.java:29-34 | a new exporter is IDLE with no progress, log, error or notices |
| DataExporter.Exporter.StartExport | SenSeeActService/src/main/java/nl/rrd/senseeact/service/export/DataExporter.java:61-68 | the fields become those of the start operation |
| DataExporter.Exporter.CancelExport | SenSeeActService/src/main/java/nl/rrd/senseeact/service/export/DataExporter.java:73-81 | the fields become those of the cancel operation |
| DataExporter.Exporter.SetExportError | SenSeeActService/src/main/java/nl/rrd/senseeact/service/export/DataExporter.java:202-211 | the fields become those of the error operation |
| DataExporter.Exporter.CompleteExport | SenSeeActService/src/main/java/nl/rrd/senseeact/service/export/DataExporter.java:219-225 | the fields become those of completion |
| DataExporter.Exporter.UpdateProgress | SenSeeActService/src/main/java/nl/rrd/senseeact/service/export/DataExporter.java:276-286 | the fields become those of the progress update |
| DataExporter.Exporter.LogMessageAt | SenSeeActService/src/main/java/nl/rrd/senseeact/service/export/DataExporter.java:296-304 | the fields become those of the log operation |
| ServiceUserRunState.KeyEqualsMeans | SenSeeActService/src/main/java/nl/rrd/senseeact/service/ServiceUserRunState.java:75-91 | key equality is value equality: equal service names and both users null or both equal |
| ServiceUserRunState.KeyHash | SenSeeActService/src/main/java/nl/rrd/senseeact/service/ServiceUserRunState.java:67-73 | the hash is a 32-bit int, combining the UTF-16 string hashes of the service name and the user |
| ServiceUserRunState.UnsetNotRun | SenSeeActService/src/main/java/nl/rrd/senseeact/service/ServiceUserRunState.java:49-56 | a key that was never set has not run |
| ServiceUserRunState.SetThenSince | SenSeeActService/src/main/java/nl/rrd/senseeact/service/ServiceUserRunState.java:33-56 | after a set the service has run since exactly the times at or before the set time; a later set overwrites; other keys are unaffected |
| ServiceUserRunState.NullUserSeparate | SenSeeActService/src/main/java/nl/rrd/senseeact/service/ServiceUserRunState.java:86-89 | a key with a null user does not affect the key of a named user |
| ServiceUserRunState.RunState.SetServiceRunTime | SenSeeActService/src/main/java/nl/rrd/senseeact/service/ServiceUserRunState.java:33-38 | the map gets the time under the key |
| ServiceUserRunState.RunState.IsServiceRunSince | SenSeeActService/src/main/java/nl/rrd/senseeact/service/ServiceUserRunState.java:49-56 | true exactly when the key has a time at or after the given one |
| FileServer.Plan | SenSeeActServiceLib/src/main/java/nl/rrd/senseeact/service/FileServer.java:61-84 | the number of bytes copy reads is always getContentLength; without both ends, skip plus read is the input length |
| FileServer.Written | SenSeeActServiceLib/src/main/java/nl/rrd/senseeact/service/FileServer.java:73-104 | copy writes at most the content length, and exactly that many bytes when the data holds them |
| FileServer.ServedBytes | SenSeeActServiceLib/src/main/java/nl/rrd/senseeact/service/FileServer.java:61-104 | a whole file, an open range, a suffix or a closed range inside the file yields exactly those bytes |
| FileServer.SkipFully | SenSeeActServiceLib/src/main/java/nl/rrd/senseeact/service/FileServer.java:87-92 | the skip loop succeeds iff the data holds the bytes to skip, and then stands right after them |
| FileServer.CopyAsWritten | SenSeeActServiceLib/src/main/java/nl/rrd/senseeact/service/FileServer.java:73-104 | as written: success iff the data holds the bytes; a short skip is an end of file, but data that ends while reading reaches write with length −1 |
| FileServer.Copy | SenSeeActServiceLib/src/main/java/nl/rrd/senseeact/service/FileServer.java:73-104 | success iff the data holds the bytes, otherwise end of file; the body is the requested bytes; every write is between 1 and 4096 bytes |
| FileServer.ReadFileHeaders | SenSeeActServiceLib/src/main/java/nl/rrd/senseeact/service/FileServer.java:21-55 | a bad header, a unit other than bytes or a multi-range is a bad request with its message; one interval gives 206 and a Content-Range; Content-Length is the content length; only GET gets a body |
| FileServer.BodyMatchesContentLength | SenSeeActServiceLib/src/main/java/nl/rrd/senseeact/service/FileServer.java:51-57 | when the data holds the bytes, the body length is the Content-Length header |
| FileServer.ReadFile | SenSeeActServiceLib/src/main/java/nl/rrd/senseeact/service/FileServer.java:21-59 | errors and non-GET requests write nothing; a GET writes the requested bytes and fails only at the end of the data |
| I18n.Split | SenSeeActServiceLib/src/main/java/nl/rrd/senseeact/service/i18n/I18n.java:204 | every piece of the split is a non-empty run without white space, starting with the string's first character |
| I18n.SplitJoin | SenSeeActServiceLib/src/main/java/nl/rrd/senseeact/service/i18n/I18n.java:197-207 | splitting words joined by spaces gives back the words |
| I18n.ParseContext | SenSeeActServiceLib/src/main/java/nl/rrd/senseeact/service/i18n/I18n.java:197-207 | a null or blank context is the empty set; every context word is non-empty and free of white space |
| I18n.ParseContextJoin | SenSeeActServiceLib/src/main/java/nl/rrd/senseeact/service/i18n/I18n.java:197-207 | a context written as printable words separated by spaces parses to exactly those words |
| I18n.Without | SenSeeActServiceLib/src/main/java/nl/rrd/senseeact/service/i18n/I18n.java:120-131 | a filter keeps exactly the terms whose context has none of the excluded words, and never grows the list |
| I18n.WithoutFirst | SenSeeActServiceLib/src/main/java/nl/rrd/senseeact/service/i18n/I18n.java:99-108 | the first element of a filtered list is the first term that passes |
| I18n.WithoutTwice | SenSeeActServiceLib/src/main/java/nl/rrd/senseeact/service/i18n/I18n.java:96-108 | filtering by formality and then by gender is filtering by both at once |
| I18n.FormalityDrop | SenSeeActServiceLib/src/main/java/nl/rrd/senseeact/service/i18n/I18n.java:111-119 | only a formality that lower-cases to "informal" excludes "formal" terms; null or any other value excludes "informal" |
| I18n.FilterFormality | SenSeeActServiceLib/src/main/java/nl/rrd/senseeact/service/i18n/I18n.java:111-132 | the loop keeps, in order, exactly the terms the formality allows |
| I18n.FilterGender | SenSeeActServiceLib/src/main/java/nl/rrd/senseeact/service/i18n/I18n.java:134-150 | the loop keeps, in order, exactly the terms the gender allows, a null gender counting as MALE |
| I18n.Preferred | SenSeeActServiceLib/src/main/java/nl/rrd/senseeact/service/i18n/I18n.java:93-109 | the chosen term is one of the terms, a single term is chosen at once, and it has the user's formality whenever some term does |
| I18n.PreferredFirstMatch | SenSeeActServiceLib/src/main/java/nl/rrd/senseeact/service/i18n/I18n.java:96-108 | with several terms of the user's formality, the first term with both the formality and the gender is chosen |
| I18n.PreferredByGenderAlone | SenSeeActServiceLib/src/main/java/nl/rrd/senseeact/service/i18n/I18n.java:96-108 | with no term of the user's formality, the first term suiting the gender is chosen |
| I18n.FindPreferredTerm | SenSeeActServiceLib/src/main/java/nl/rrd/senseeact/service/i18n/I18n.java:93-109 | the method returns the text of the preferred term |
| I18n.Translation | SenSeeActServiceLib/src/main/java/nl/rrd/senseeact/service/i18n/I18n.java:84-91 | the text comes from the language's terms, else from the defaults, else it is the default result |
| I18n.Translate | SenSeeActServiceLib/src/main/java/nl/rrd/senseeact/service/i18n/I18n.java:84-91 | the method returns the translation |
| I18n.TermsOf | SenSeeActServiceLib/src/main/java/nl/rrd/senseeact/service/i18n/I18n.java:173-195 | term lists are never empty and their texts never empty; an id has a list exactly when some item has it with a non-empty definition |
| I18n.ParseEntries | SenSeeActServiceLib/src/main/java/nl/rrd/senseeact/service/i18n/I18n.java:173-195 | the loop builds the term map |
| ClientUser.NonBlank | SenSeeActClient/src/main/java/nl/rrd/senseeact/client/model/User.java:1033-1034 | a field counts only when set and not blank, and then trimmed |
| ClientUser.LastNameOf | SenSeeActClient/src/main/java/nl/rrd/senseeact/client/model/User.java:1035-1045 | the last name is present iff the last name or the official last names are filled in; prefixes never stand alone |
| ClientUser.RealName | SenSeeActClient/src/main/java/nl/rrd/senseeact/client/model/User.java:1032-1063 | a full name wins; the name is null exactly when the full name and the four first and last name fields are all blank; it never has white space at its ends; without a last name it is the first name |
| ClientUser.InitialsOnlyWithLastName | SenSeeActClient/src/main/java/nl/rrd/senseeact/client/model/User.java:1046-1063 | first and last name when both exist; initials and last name only without a first name; without a last name the first name |
| ClientUser.LocaleOf | SenSeeActClient/src/main/java/nl/rrd/senseeact/client/model/User.java:1007-1021 | a null code or one of the wrong length gives the default; otherwise a two-letter lower-case language and an optional two-letter upper-case region |
| ClientUser.LocaleRoundTrip | SenSeeActClient/src/main/java/nl/rrd/senseeact/client/model/User.java:1007-1021 | reading the code of a locale gives back that locale |
| ClientUser.LocaleIgnoresCase | SenSeeActClient/src/main/java/nl/rrd/senseeact/client/model/User.java:1009-1013 | the code is read without regard to case |
| ClientUser.User.constructor | SenSeeActClient/src/main/java/nl/rrd/senseeact/client/model/User.java:53-181 | a new user is active, unverified, without temporary email or password, and without names or locale |
| ClientUser.User.CopyFrom | SenSeeActClient/src/main/java/nl/rrd/senseeact/client/model/User.java:184-226 | every field takes the other user's value |
| AppNotification.ActiveInterval | SenSeeActClient/src/main/java/nl/rrd/senseeact/client/model/notification/AppNotification.java:273-282 | a notification is active exactly when it has not ended, its start time has passed, and it has no end time or the end time lies ahead |
| AppNotification.ActiveBounds | SenSeeActClient/src/main/java/nl/rrd/senseeact/client/model/notification/AppNotification.java:274-280 | an ended notification, or one before its start, or one at or after its end time, is inactive; a notification that has not ended is active at its start when its end time lies after it |
| AppNotification.NoEndStaysActive | SenSeeActClient/src/main/java/nl/rrd/senseeact/client/model/notification/AppNotification.java:279-281 | without an end time an active notification stays active later |
| AppNotification.ActiveConvex | SenSeeActClient/src/main/java/nl/rrd/senseeact/client/model/notification/AppNotification.java:276-280 | the times at which a notification is active form an interval |
| TextEdit.IdPart | SenSeeActService/src/main/web/js/widgets/text-edit.js:264-274 | each transformed part of an id input holds only characters from [a-z0-9_] and is no longer than the part typed |
| TextEdit.IdPartIdempotent | SenSeeActService/src/main/web/js/widgets/text-edit.js:264-274 | the id transformer applied to its own output changes nothing |
| TextEdit.TransformInputTypeId | SenSeeActService/src/main/web/js/widgets/text-edit.js:264-274 | the loop over the three parts returns the id transform of each part, in order |
| TextEdit.TransformInputTypeNonNegInt | SenSeeActService/src/main/web/js/widgets/text-edit.js:293-299 | the loop returns the digits of each of the three parts, in order |
| TextEdit.DigitsIdempotent | SenSeeActService/src/main/web/js/widgets/text-edit.js:293-299 | keeping the digits of text that holds only digits changes nothing |
| TextEdit.SignedParts | SenSeeActService/src/main/web/js/widgets/text-edit.js:282-290 | the sign pass keeps the digits of every part unchanged and adds at most a leading '-' |
| TextEdit.TransformInputTypeInt | SenSeeActService/src/main/web/js/widgets/text-edit.js:276-291 | the two loops compute the integer transform: strip everything but digits and '-', then keep a '-' only at the start of the first non-empty part |
| TextEdit.IntTransformIntPrefix | SenSeeActService/src/main/web/js/widgets/text-edit.js:282-290 | the joined output of the integer transformer is an optional '-' followed by digits |
| TextEdit.IntTransformIdempotent | SenSeeActService/src/main/web/js/widgets/text-edit.js:276-291 | the integer transformer applied to its own output changes nothing |
| TextEdit.StepAsWrittenAgrees | SenSeeActService/src/main/web/js/widgets/text-edit.js:342-346 | the step on the state names as written, where the separator step yields "inIntafterDecSep", emits the same text and moves to the same state as the intended four-state machine |
| TextEdit.TransformInputTypeFloat | SenSeeActService/src/main/web/js/widgets/text-edit.js:301-358 | the nested loops over the named states compute the decimal transform: strip, map '.' and ',' to the separator, drop separators before the selection when one follows, and run the state machine across the parts |
| TextEdit.FloatTransformPrefix | SenSeeActService/src/main/web/js/widgets/text-edit.js:320-356 | the joined output of the decimal transformer is an optional '-', digits, and at most one separator, which comes right after a digit |
| TextEdit.ApplyTransformer | SenSeeActService/src/main/web/js/widgets/text-edit.js:64-94 | calling the transformer that was set returns what that transformer makes of the three parts |
| TextEdit.TransformIdempotent | SenSeeActService/src/main/web/js/widgets/text-edit.js:264-299 | the id, integer and non-negative integer transformers are idempotent on the three parts |
| TextEdit.TextInput.OnInputTransform | SenSeeActService/src/main/web/js/widgets/text-edit.js:239-262 | without a transformer, or when it changes nothing, the value and selection stay; otherwise the new value split at the new selection gives exactly the transformed parts |
| TextEdit.TransformSettles | SenSeeActService/src/main/web/js/widgets/text-edit.js:239-262 | after an idempotent transformer ran, running it again on the new value and selection changes nothing |
| TextEdit.ReadId | SenSeeActService/src/main/web/js/widgets/text-edit.js:120-135 | the JavaScript-trimmed value is returned when it matches [a-z][a-z0-9_]*; an empty value is allowed exactly when asked for; everything else is an error |
| TextEdit.TransformedIdAccepted | SenSeeActService/src/main/web/js/widgets/text-edit.js:120-135 | an id transformer output that starts with a letter is read back unchanged |
| TextEdit.ReadInt | SenSeeActService/src/main/web/js/widgets/text-edit.js:152-177 | a value is returned exactly for JavaScript-trimmed text matching -?[0-9]+ whose decimal value lies within the given bounds, and it is that value; an empty value is allowed exactly when asked for; everything else is an error |
| TextEdit.ReadIntRoundTrip | SenSeeActService/src/main/web/js/widgets/text-edit.js:152-177 | reading the decimal text of an integer within the bounds gives that integer |
| TextEdit.TransformedIntAccepted | SenSeeActService/src/main/web/js/widgets/text-edit.js:152-177 | what the integer transformer leaves, once it holds a digit, is read as an integer |
| NumCodeEdit.CodeExactlyWhenFilled | SenSeeActService/src/main/web/js/widgets/num-code-edit.js:17-26 | with one digit or none per box and one box per digit of the code, the code is non-null exactly when no box is empty, and it then consists of digits |
| NumCodeEdit.NumCodeEdit.constructor | SenSeeActService/src/main/web/js/widgets/num-code-edit.js:2-7 | a new widget has code length 6, no boxes and no enter listener |
| NumCodeEdit.NumCodeEdit.SetCodeLength | SenSeeActService/src/main/web/js/widgets/num-code-edit.js:13-15 | the code length takes the value given; nothing else changes |
| NumCodeEdit.NumCodeEdit.SetOnEnter | SenSeeActService/src/main/web/js/widgets/num-code-edit.js:28-30 | the enter listener is set or cleared; nothing else changes |
| NumCodeEdit.NumCodeEdit.Render | SenSeeActService/src/main/web/js/widgets/num-code-edit.js:32-36 | rendering appends one empty box per digit of the code and keeps the boxes already there |
| NumCodeEdit.NumCodeEdit.SpreadDigits | SenSeeActService/src/main/web/js/widgets/num-code-edit.js:78-84 | the loop writes the typed digits one per box from the current box on, stops at the last box, drops the surplus digits and leaves every other box as it was |
| NumCodeEdit.NumCodeEdit.OnInputAsWritten | SenSeeActService/src/main/web/js/widgets/num-code-edit.js:65-99 | with no digits before the caret the box is cleared; otherwise the digits are spread, and on reaching the last box with a listener set the handler throws exactly when the code is null |
| NumCodeEdit.NumCodeEdit.OnInput | SenSeeActService/src/main/web/js/widgets/num-code-edit.js:65-99 | with no digits before the caret the box is cleared and the focus moves to the end of the previous box; otherwise the digits are spread, the focus moves to the next empty position, and the listener receives the code exactly when the last box is reached and every box is filled |
| NumCodeEdit.EnteredCodeIsDigits | SenSeeActService/src/main/web/js/widgets/num-code-edit.js:93-96 | a code handed to the enter listener has exactly as many characters as the code length, all digits |
| NumCodeEdit.FullCodeFromFirstBox | SenSeeActService/src/main/web/js/widgets/num-code-edit.js:78-84 | typing a whole code into the first box fills every box |
| NumCodeEdit.EmptyEarlierBoxLeavesNoCode | SenSeeActService/src/main/web/js/widgets/num-code-edit.js:89-96 | when the digits reach the last box while an earlier box is empty, the code is null |
| NumCodeEdit.TypingIntoLastBoxFirst | SenSeeActService/src/main/web/js/widgets/num-code-edit.js:93-94 | typing a digit into the last of six empty boxes reaches the last box with a null code |
| NumCodeEdit.NumCodeEdit.OnKeyBackspace | SenSeeActService/src/main/web/js/widgets/num-code-edit.js:110-116 | with the caret at the start of a box other than the first, the box before it is cleared and focused; otherwise nothing changes |
| Signup.LastIndexOf | SenSeeActService/src/main/web/js/pages/signup.js:217-219 | no position exactly when the character is absent; otherwise a position holding it with no later occurrence |
| Signup.SplitJoinDots | SenSeeActService/src/main/web/js/pages/signup.js:229 | splitting the domain at its dots loses nothing: joining the labels with dots gives the domain back |
| Signup.SplitAppend | SenSeeActService/src/main/web/js/pages/signup.js:229 | splitting two texts joined at a dot gives the labels of the first followed by those of the second |
| Signup.CheckLabels | SenSeeActService/src/main/web/js/pages/signup.js:232-240 | the label loop succeeds exactly when every label from the current one on is non-empty, of label characters, neither starts nor ends with '-', and the last is not all digits |
| Signup.IsValidEmailWith | SenSeeActService/src/main/web/js/pages/signup.js:214-242 | the empty address and one without '@' are refused; an accepted address has an acceptable local part and domain around its last '@' |
| Signup.ValidEmailSplit | SenSeeActService/src/main/web/js/pages/signup.js:214-242 | an address is accepted exactly when some '@' splits it into an acceptable local part and an acceptable domain of at least two labels |
| Signup.ValidEmailOneAt | SenSeeActService/src/main/web/js/pages/signup.js:217-226 | an accepted address holds no '@' besides the one it is split at |
| Signup.DomainChars | SenSeeActService/src/main/web/js/pages/signup.js:229-236 | a domain whose labels hold only label characters holds only label characters and dots |
| Signup.DomainHasNoAt | SenSeeActService/src/main/web/js/pages/signup.js:229-240 | an acceptable domain holds no '@', so the split at the last '@' is the only possible one |
| Signup.NumericTopLabelRefused | SenSeeActService/src/main/web/js/pages/signup.js:238-239 | in an accepted address the last domain label is not all digits |
| Signup.TwoLabelAddress | SenSeeActService/src/main/web/js/pages/signup.js:214-242 | an acceptable local part, an '@' and two acceptable dot-free labels joined at a dot make an accepted address |
| Signup.BackslashInLabel | SenSeeActService/src/main/web/js/pages/signup.js:234-235 | the label pattern as written accepts "a@b\c.nl"; the intended pattern refuses it |
| Signup.IntendedRefusesBackslash | SenSeeActService/src/main/web/js/pages/signup.js:224-235 | with the intended label pattern no accepted address contains a backslash |
| Signup.AgreeWithoutBackslash | SenSeeActService/src/main/web/js/pages/signup.js:234-235 | on addresses without a backslash the pattern as written and the intended pattern agree |
| Signup.IntendedIsWrittenWithoutBackslash | SenSeeActService/src/main/web/js/pages/signup.js:214-242 | the intended check accepts exactly the addresses the check as written accepts that hold no backslash |
| Signup.ProfileOf | SenSeeActService/src/main/web/js/pages/signup.js:184-188 | the profile holds the first and last name exactly when they are not empty, with those values, and no other key |
| Signup.Length | SenSeeActService/src/main/web/js/pages/signup.js:195 | the JavaScript length counts UTF-16 code units, at least one per character |
| Signup.FirstError | SenSeeActService/src/main/web/js/pages/signup.js:192-198 | the reported error is the first failing check in the order address, password length of at least 6, repeated password; none exactly when all pass |
| Signup.SignupClick | SenSeeActService/src/main/web/js/pages/signup.js:179-212 | a click is rejected exactly when a check fails, with that first error; otherwise it submits the JavaScript-trimmed valid address, the matching password of at least 6 UTF-16 code units and the profile of trimmed names |
| Signup.OneErrorShown | SenSeeActService/src/main/web/js/pages/signup.js:192-199 | a rejected click hands over an error object of exactly one entry |
| Animation.InitialInv | SenSeeActService/src/main/web/js/animation.js:15-28 | the animator starts with an empty slot and no settled click, which meets the invariant |
| Animation.SettleInv | SenSeeActService/src/main/web/js/animation.js:141-149 | completing the pending click keeps the ids of settled clicks increasing and below the fresh id, and adds at most one settled click |
| Animation.HandlerCompletedInv | SenSeeActService/src/main/web/js/animation.js:80-86 | a handler report keeps the invariant, so each click settles at most once |
| Animation.AnimationCompletedInv | SenSeeActService/src/main/web/js/animation.js:133-139 | the end of a click animation keeps the invariant |
| Animation.BeginInv | SenSeeActService/src/main/web/js/animation.js:109-129 | starting a fresh click keeps the invariant |
| Animation.OnAnimatedClickInv | SenSeeActService/src/main/web/js/animation.js:101-131 | a click, as written and corrected, keeps the invariant |
| Animation.InvOfClicks | SenSeeActService/src/main/web/js/animation.js:119-126 | the invariant does not depend on the element listeners and classes |
| Animation.AnimationEndInv | SenSeeActService/src/main/web/js/animation.js:121-125 | an animationend event keeps the invariant |
| Animation.StartAnimationInv | SenSeeActService/src/main/web/js/animation.js:151-159 | startAnimation keeps the invariant |
| Animation.ClickIgnoredIff | SenSeeActService/src/main/web/js/animation.js:101-117 | a click changes nothing exactly when a pending click is younger than 2000 ms; at exactly 2000 ms it is taken; a taken click uses the next fresh id |
| Animation.NewClickPending | SenSeeActService/src/main/web/js/animation.js:109-127 | a taken click with an animation class and a deferred handler is pending with the fresh id, the click time, neither part done and a null result, with its animationend listener and class on the element |
| Animation.PlainClickSettlesAtOnce | SenSeeActService/src/main/web/js/animation.js:113-114 | a click with neither animation class nor handler settles at once and passes null to its callback |
| Animation.StaleSignalsDropped | SenSeeActService/src/main/web/js/animation.js:80-82 | a report or animation end for another click or on an empty slot changes nothing but the removal of the animation class |
| Animation.ReportSettlesIff | SenSeeActService/src/main/web/js/animation.js:80-86 | a report for the pending click settles it, with the reported result and an emptied slot, exactly when its animation is done; otherwise only the handler flag and result change |
| Animation.AnimationSettlesIff | SenSeeActService/src/main/web/js/animation.js:133-139 | the end of the pending click's animation settles it, with the stored result, exactly when its handler is done; otherwise only the animation flag changes |
| Animation.OrderIndependent | SenSeeActService/src/main/web/js/animation.js:141-149 | report then animation end and animation end then report lead to the same state, with one callback that passes the reported result |
| Animation.ExpiredClickReplaced | SenSeeActService/src/main/web/js/animation.js:103-117 | a pending click older than 2000 ms is replaced; its later report and animation end are dropped and it is never among the settled clicks |
| Animation.SyncReportThrows | SenSeeActService/src/main/web/js/animation.js:128-130 | the click as written throws exactly when it is taken without an animation class and its handler reports before returning; the state is that of the corrected click |
| Animation.SyncReportSettlesOnce | SenSeeActService/src/main/web/js/animation.js:128-130 | the corrected click settles such a click once, with the reported result, and leaves the slot empty |
| Animation.StackedHandlerIgnored | SenSeeActService/src/main/web/js/animation.js:58-65 | with two click handlers stacked on an element, when the first starts a pending click the second is ignored |
| Animation.StartAnimationNotExclusive | SenSeeActService/src/main/web/js/animation.js:151-165 | startAnimation leaves the slot, the ids and the settled clicks alone, and takes over the element's animationend so that a click animating it is not told its animation ended |
| Animation.ElementAnimator.constructor | SenSeeActService/src/main/web/js/animation.js:15-28 | a new animator has an empty slot, no listener and no class, and meets the invariant |
| Animation.ElementAnimator.AddAnimatedClickHandler | SenSeeActService/src/main/web/js/animation.js:58-65 | the element's click handlers become those before plus the new one; nothing else changes |
| Animation.ElementAnimator.ClearAnimatedClickHandler | SenSeeActService/src/main/web/js/animation.js:67-69 | the element is left with no click handler; nothing else changes |
| Animation.ElementAnimator.CheckAnimatedClickCompleted | SenSeeActService/src/main/web/js/animation.js:141-149 | the new state and whether it throws are those of the check as written |
| Animation.ElementAnimator.OnAnimatedClickHandlerCompleted | SenSeeActService/src/main/web/js/animation.js:80-86 | the new state is that of a handler report, and the invariant is kept |
| Animation.ElementAnimator.OnAnimatedClickAnimationCompleted | SenSeeActService/src/main/web/js/animation.js:133-139 | the new state is that of an animation end, and the invariant is kept |
| Animation.ElementAnimator.OnAnimatedClickAsWritten | SenSeeActService/src/main/web/js/animation.js:101-131 | the new state and whether it throws are those of the click as written, and the invariant is kept |
| Animation.ElementAnimator.OnAnimatedClick | SenSeeActService/src/main/web/js/animation.js:101-131 | the new state is that of the corrected click, and the invariant is kept |
| Animation.ElementAnimator.BeginClick | SenSeeActService/src/main/web/js/animation.js:109-129 | the new state is that of filling the slot and letting an immediate handler report |
| Animation.ElementAnimator.FillClickSlot | SenSeeActService/src/main/web/js/animation.js:109-127 | the new click takes the fresh id; the new state is that of filling the slot |
| Animation.ElementAnimator.AnimationEndEvent | SenSeeActService/src/main/web/js/animation.js:121-125 | the new state is that of the element's animationend listener running, and the invariant is kept |
| Animation.ElementAnimator.OnAnimationEnd | SenSeeActService/src/main/web/js/animation.js:161-165 | the class is removed and onend, if any, is called; nothing else changes |
| Animation.ElementAnimator.StartAnimation | SenSeeActService/src/main/web/js/animation.js:151-159 | the new state is that of startAnimation, and the invariant is kept |
| Animation.ElementAnimator.Click | SenSeeActService/src/main/web/js/animation.js:61-64 | a click on an element runs its click handlers in order until one throws, as DispatchClick states, and the invariant is kept |

## Left out
- Sync: writing sync actions to the database and the wire (I/O) is not modelled.
- Sync: the validation inside getNextActionGroup is abstracted.
- Sync: whether a table is split by user is a set parameter.
- Sync: includeWriteResourceTables is treated as non-null.
- SyncRestriction: null lists are treated as empty.
- Varargs setters and trivial getters are not modelled.
- Value normalisation before comparison is abstracted as a parameter.
- JSON parsing and floating-point values are not modelled.
- RemoveUserKeepsMeaning requires NoEmptyOr.
- The unreachable branch of the action merger is not modelled.
- DatabaseCache: setter aliasing, STATIC_LOCK and loading from the database are not modelled.
- DatabaseFieldScanner: reflection and concurrency are not modelled.
- Listener callbacks are not modelled.
- UserCache: the comparator sort in getUsers is not modelled.
- UserCache: database writes in create/update/deleteUser are not modelled.
- UserCache: the createInstance singleton and LOCK are not modelled.
- UserCache: lower-casing covers ASCII only.
- UserCache: ProtocolVersion is a boolean.
- UserCache: finders return copies (value semantics).
- ServiceUser: group, project access-control and module lookups become parameters.
- ServiceUser: AccessMode is a string with a matchesRequest parameter.
- ServiceUser: the two-element array is kept as two locals.
- ServiceUser: the findAccessibleUserByUserid/Email lookups are not modelled.
- ProjectUserAccess: the log-range message format is not modelled.
- ProjectUserAccess: a LocalDate is a day number.
- PermissionManager: getAtomicPermissions (the permission types) is a parameter.
- PermissionManager: hasPermission with the database overload is not modelled.
- PermissionManager: values are Json and equals is structural.
- PermissionManager: the stored JSON "null" is assumed to read back as a null map.
- PermissionManager: a null params map in matching is not modelled (database records have maps).
- AuthController: hashing is not modelled, and the deprecated-hash rehash counts as a match.
- AuthController: login field validation and the user lookup are not modelled.
- AuthController: database writes are not modelled.
- AuthController: Twilio SMS/TOTP is not modelled.
- AuthController: findVerifiedMfaRecords is not part of the model (verified = VERIFY_SUCCESS in list order).
- AuthController: times are milliseconds (verifyTimes is declared Long but added as date-times).
- AuthController.AuthUser.VerifyEmail: requires CodeTimed (the source throws on a code without a time).
- AuthController.VerifyEmailStep: requires CodeTimed as well, for the same reason; the exception for a code without a time is not modelled.
- AuthController: the user-not-found case of verifyEmail is not modelled.
- UserController: property reading and writing by reflection is a map from property names to values.
- UserController: emailExists is a parameter `taken`.
- UserController: the email templates and the profile-updated listener notification are not modelled.
- DataExporter: the export thread, readUsers and readData are not modelled, nor is the file system; completion is an operation of its own.
- DataExporter: the LOCK and the concurrency between the thread and the callers are not modelled; operations are atomic.
- DataExporter: the exception is kept as its message.
- ServiceUserRunState: the singleton and STATIC_LOCK are not modelled; times are milliseconds.
- FileServer: an interval with neither start nor end (which getContentLength would unbox as null) is not represented; HttpRange.parse is a parameter and whether its end is inclusive (as last-byte-pos is in section 2.1 of RFC 7233) is not part of this model.
- FileServer: the streams read and skip as many bytes as are available up to the request; a real stream may return fewer. equalsIgnoreCase is ASCII lower-casing; closing the streams and the File overload are not modelled.
- I18n: init (resource lookup, the language cache and LOCK), loadFile and reading the items from JSON are not modelled; items arrive already read. Gender values besides MALE and FEMALE are one case. toLowerCase is ASCII lower-casing.
- ClientUser.User: the fields are held as one record value and copyFrom copies the record; copyFrom from an object that is not a User (the superclass copy) is not modelled. Dates and times are integers; MaritalStatus is kept by the name of its constant. toLowerCase is ASCII lower-casing, so non-ASCII letters that Java lower-cases to a-z are not matched by LocaleOf.
- TextEdit: readFloat and the floating-point parsing are not modelled. parseInt is exact on unbounded integers, whereas JavaScript numbers lose precision past 2^53. showError and focusing the field (DOM effects) become the Invalid result. The decimal separator from toLocaleString is a parameter. Removing it before the selection matches it literally, which is what the escaped regular expression does for '.' and ','. Of toLowerCase, only the results the id filter keeps are modelled: the ASCII capitals, the Kelvin sign U+212A (to 'k') and U+0130 (to 'i' and a combining dot the filter drops); other characters that lower-case into a-z are not. The input's other handlers, icons and styling are not modelled.
- TextEdit.TransformIdempotent: the decimal transformer is not proved idempotent; only the shape of its output is proved (FloatTransformPrefix).
- NumCodeEdit: the DOM is reduced to the values of the boxes, the focused box and its selection. The browser's own edit of the box that was typed into is the typed value the handler receives. _onFocus (select all), _onKeyArrowLeft and _onKeyArrowRight (caret moves between boxes), focus() and the default action of the keys are not modelled. Setting the code length after render leaves the boxes out of step with it; the handlers require that they match.
- NumCodeEdit.NumCodeEdit.OnKeyBackspace: the caret position the browser gives the focused box is not modelled.
- Signup: the page wiring (form fields, error labels, the sign-up request and its done and fail handlers, focus and key handling) is left out; a click is modelled from the typed field values to either the one error or the request it sends.
- Signup: the regular expressions are modelled as character predicates over ASCII letters and digits, as the patterns state them.
- Animation: click ids are taken from a counter instead of `uuidv4`, so they are fresh by construction; the clock (`moment()`) is a parameter of each click.
- Animation: jQuery events are reduced to the click and animationend listeners; `preventDefault` and `stopPropagation` have no counterpart, and a callback, a handler or an `onend` function is recorded by its identity instead of being run.
- Animation: a handler that reports before returning is modelled for its own click only; a handler that reports for another click or runs other code synchronously is left out.
- Animation: an exception thrown by a click handler stops the remaining handlers of that click, as jQuery's dispatch lets it propagate; that dispatch is assumed, not modelled.
- DatabaseCriteria.Equals: states the corrected equality of And and Or, each operand of one side equal to some operand of the other; equals as written, through HashSets and so through hashCode, is DatabaseCriteria.JavaEquals, and DatabaseCriteria.JavaEqualsDiffersFromCover shows where the two part.
- DatabaseCriteria.HasMatchMeans: is about the corrected cover equality DatabaseCriteria.Equals, not about equals as written (DatabaseCriteria.JavaEquals), which hashCode makes differ from it.
- DatabaseCriteria.AllMatchedMeansCovered: is about the corrected cover equality DatabaseCriteria.Equals, not about equals as written (DatabaseCriteria.JavaEquals), which hashCode makes differ from it.
- DatabaseCriteria.AllMatchedBackMeansCovered: is about the corrected cover equality DatabaseCriteria.Equals, not about equals as written (DatabaseCriteria.JavaEquals), which hashCode makes differ from it.
- DatabaseCriteria.EqualsComparesOperandSets: is about the corrected cover equality DatabaseCriteria.Equals, not about equals as written (DatabaseCriteria.JavaEquals), which hashCode makes differ from it.
- DatabaseCriteria.EqualsSymmetric: is about the corrected cover equality DatabaseCriteria.Equals, not about equals as written (DatabaseCriteria.JavaEquals), which hashCode makes differ from it.
- DatabaseCriteria.EqualsIgnoresOrderAndDuplicates: is about the corrected cover equality DatabaseCriteria.Equals, not about equals as written (DatabaseCriteria.JavaEquals), which hashCode makes differ from it.
- DatabaseCriteria.JavaEquals: the identity shortcut `this == obj` is not modelled separately; it agrees with the set comparison for every criterion, which JavaEqualsReflexive shows. Symmetry and transitivity of equals as written are not proved.
- Text lengths and positions: Java's String.length, substring and charAt and JavaScript's length and substring count UTF-16 code units, while the models index characters; only compareTo, hashCode (JavaText.Utf16) and the password length (Signup.Length) count code units. Above the Basic Multilingual Plane a position or a length of the model can therefore differ from the source's.
- DatabaseUser.GetUpdateUser: a criteria tree holding a DatabaseCriteria subclass defined elsewhere prints as the empty text in the messages, because that subclass's toString is not part of this model.
- DatabaseSynchronizer.ReadSyncCriteriaSelects: the selection is stated with the in-memory matcher's meaning, where null is a value like any other and below every value; a SQL database compares NULL as unknown, so a row with a null source, which NotEqual(source, x) selects here, is left out by the `!=` test SQL applies.

## Findings

| source | as written | input that shows it | evidently intended | confidence | as-written member | corrected member |
|---|---|---|---|---|---|---|
| SenSeeActService/src/main/java/nl/rrd/senseeact/service/controller/model/SelectFilterParser.java:224-227 | the message for an unknown sort column formats `field`, which is null in that branch, instead of the column name | a sort on "steps" in a table without that column reports column "null" | the message names the sort column that was not found | high, not executed | SelectFilterParser.SortMessageHidesColumn | SelectFilterParser.ParseSort, SelectFilterParser.SortErrorNamesColumn |
| DataAccessObjects/src/main/java/nl/rrd/senseeact/dao/DatabaseCriteria.java:497-523 | equals of And and Or compares HashSets of the operands, so it depends on hashCode; hashCode sums the operand hashes and hashes integers and strings apart, although comparisons equal 5 and "5" and sets ignore repetition | And(a, a) equals And(a) with different hash codes; Equal(c, 5) equals Equal(c, "5") with different hash codes, so And(Equal(c, 5)) is not equal to And(Equal(c, "5")) and a HashSet of the two holds both | equal criteria hash alike, and And and Or are equal when their operands cover each other | high, not executed | DatabaseCriteria.HashDisagreesOnDuplicates, DatabaseCriteria.HashDisagreesOnValueKind, DatabaseCriteria.JavaEqualsDiffersFromCover | DatabaseCriteria.ConsistentHash, DatabaseCriteria.EqualsHashesAlike, DatabaseCriteria.EqualsComparesOperandSets |
| DataAccessObjects/src/main/java/nl/rrd/senseeact/dao/DatabaseCache.java:767-772 | the logical table list is guarded against null, but the table metadata map, null until it is loaded, is not | removing logical table "a" before the table metadata was loaded throws a NullPointerException and leaves the split-by-user entry | the table metadata guarded like the logical table list | medium, not executed | DatabaseCache.CachedMetadata.RemoveLogicalTableAsWritten, DatabaseCache.RemoveBeforeMetadataLoaded | DatabaseCache.CachedMetadata.RemoveLogicalTable |
| SenSeeActService/src/main/java/nl/rrd/senseeact/service/PermissionManager.java:156-169 | grant without parameters stores a null parameter map, and findExactPermission calls equals on the stored map | granting a permission without parameters to a user without a row for it, then granting or revoking it again | a missing parameter map stored as the empty map | medium, not executed; assumes a stored null map reads back as null | PermissionManager.GrantedAsWritten, PermissionManager.GrantWithoutParamsBreaksLookup | PermissionManager.Granted |
| SenSeeActServiceLib/src/main/java/nl/rrd/senseeact/service/FileServer.java:98-102 | a read of −1 at the end of the input passes the check for 0 and is given to write, which throws IndexOutOfBoundsException instead of EOFException | a 10-byte file served with an interval from 0 to 100: the second read returns −1 | end of input reported as EOFException | medium, not executed; relies on InputStream.read returning −1 at end of stream | FileServer.CopyAsWritten | FileServer.Copy |
| SenSeeActService/src/main/web/js/widgets/num-code-edit.js:93-96 | the length of the code is read whenever a listener is set, but the code is null when the boxes do not hold exactly codeLength characters, so the handler throws a TypeError | six empty boxes with an enter listener set; a digit typed into the last box | call the listener only when the code is complete | high, not executed | NumCodeEdit.NumCodeEdit.OnInputAsWritten, NumCodeEdit.TypingIntoLastBoxFirst | NumCodeEdit.NumCodeEdit.OnInput |
| SenSeeActService/src/main/web/js/pages/signup.js:234 | the domain label pattern `[A-Za-z0-9\\-]` holds an escaped backslash, so the class admits '\' besides letters, digits and '-' | "a@b\c.nl" is accepted | the class of letters, digits and '-' only, refusing every address with a backslash | high, not executed | Signup.IsValidEmailAsWritten, Signup.BackslashInLabel | Signup.IsValidEmail, Signup.IntendedIsWrittenWithoutBackslash |
| SenSeeActService/src/main/web/js/animation.js:130 | after the handler runs, `_checkAnimatedClickCompleted` is called unconditionally, and it reads a property of `_currentClick` | a click without an animation class whose handler calls `onAnimatedClickHandlerCompleted` before returning: the click settles and empties the slot, and the check then reads null and throws | the final check skipped when the slot is already empty | high, not executed | Animation.AnimatedClickAsWritten, Animation.SyncReportThrows | Animation.AnimatedClick, Animation.SyncReportSettlesOnce |
