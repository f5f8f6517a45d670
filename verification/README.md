# Pure routines of the AdalFlow tutorials and use cases, in Dafny

The repository is mostly tutorial code around the `adalflow` library. This
project models the small routines that are written out in full in that code
and proves what they promise:

- **Dataclass serialisation** (`tutorials/tools.py`). `to_dict`,
  `dataclass_obj_to_dict` with per-class field exclusion, and
  `dataclass_obj_from_dict`, which rebuilds an object from a type and a plain
  dictionary. Python objects are a value tree: primitive, list, string-keyed
  dict, or dataclass instance (class name plus ordered fields). Python types
  are a schema tree. Module `Serialise`.
- **Tool functions** (`tutorials/tools.py`). The hard-coded weather backend
  `get_current_weather` and `add_points`. Module `Tools`.
- **Answer normalisation and text lookup** (`use_cases/agent/react_agent.py`).
  - `normalize_answer`: lower-case, drop punctuation, drop the articles a/an/the,
    collapse whitespace. Module `Normalize`.
  - `lookup`: the sentences mentioning a keyword. Module `Wiki`.
  - The text processing of `search` once the page is fetched. Module `Wiki`.
  - Python's string methods they use (`lower`, `split`, `strip`, `join`, `in`)
    are written out over ASCII strings in module `Text`.
- **Embedding truncation** (`tutorials/embedder.py`). The output processor
  `DecreaseEmbeddingDim`: every vector of a batch is cut to `new_dim` values
  and optionally normalised. Module `Embedder`.
- **Router dispatch** (`use_cases/generator/intermediate.py`).
  - `ChatBotWithRouter`, `Router`, `Chat` and `QAWithRouter`: a router picks
    "doctor", "lawyer" or something else, and the query goes to that
    specialist or gets an apology.
  - `create_generator_signature`: extracts the persona from a prompt template.
  - Module `Routing`.
- **Label mapping** (`tutorials/dataclass.py`). `OutputFormat.from_dict`
  turns a TREC coarse-label number into a class index and a class name.
  Module `Labels`.

Module `Wrappers` holds `Option` (Python's value-or-`None`) and `Result`
(value or raised exception). The exceptions of the modelled code are
`Failure`s with their own error constructors. Two are not modelled: those
raised inside `clean_str` and those raised when a generator returns no data.
Both are listed under "Left out".

LLM generators, `clean_str` and `normalize_vector` are function parameters.
The HTML fetched by `search` is replaced by its two extracted inputs: the
similar-title list and the paragraph list.

Where the docstring of `dataclass_obj_to_dict` (tools.py:1274-1277) shows
`'name'` surviving the exclusion, the code (tools.py:1286-1291) drops it. The
model follows the code, and `Serialise.ExampleExclusion` proves that `name`
is dropped.

## Model

| member | source | states |
|---|---|---|
| `Serialise.ToDict` | tutorials/tools.py:1201-1209 | The result contains no dataclass instance at any depth. Primitives are returned unchanged. A list stays a list of the same length. A dict keeps its keys in order. An instance becomes a dict whose keys are its field names in declaration order. |
| `Serialise.ToDictListElementwise` | tutorials/tools.py:1204-1205 | Each list element is converted in place, so order and length are kept. |
| `Serialise.ToDictRecordFieldwise` | tutorials/tools.py:1202-1203 | The i-th key of a converted instance is its i-th field name, and its value is that field's converted value. |
| `Serialise.ToDictOfPlain` | tutorials/tools.py:1201-1209 | A value with no dataclass instance inside is its own `to_dict`, so `to_dict` is idempotent. |
| `Serialise.KeepFields` | tutorials/tools.py:1289-1290 | An entry survives exactly when its key is not in the exclusion list. |
| `Serialise.KeepFieldsAppend` | tutorials/tools.py:1289-1290 | Filtering works entry by entry, so the surviving fields keep their declaration order. |
| `Serialise.ConvertExcluding` | tutorials/tools.py:1280-1300 | The result is plain. An instance's dict holds exactly those field names not listed under the instance's own class. Lists keep their length and dicts keep their keys. |
| `Serialise.DataclassObjToDict` | tutorials/tools.py:1246-1300 | The result is plain. An instance becomes a dict holding exactly its field names, minus those listed under its own class when an exclusion map is given. With `exclude=None` nothing is removed. |
| `Serialise.ExclusionIsPruneThenToDict` | tutorials/tools.py:1283-1298 | Conversion with exclusion equals removing the excluded fields from every instance at every depth, including inside lists and dicts, and then applying `to_dict`. |
| `Serialise.PruneNothing` | tutorials/tools.py:1280-1281 | An empty exclusion map removes nothing. |
| `Serialise.NoExclusionIsToDict` | tutorials/tools.py:1280-1281 | With `exclude=None`, `dataclass_obj_to_dict` coincides with `to_dict`. |
| `Serialise.DictKeysNeverExcluded` | tutorials/tools.py:1294-1298 | The keys of a plain dict are never removed, whatever the exclusion map says. |
| `Serialise.FieldType` | tutorials/tools.py:1327 | Looking up the type of a key fails exactly when no field has that name. |
| `Serialise.TypeArgument` | tutorials/tools.py:1329-1332 | `cls.__args__[i]` succeeds exactly for index 0 of a list type and indices 0 and 1 of a dict type, and the argument is a part of the type. Otherwise it fails, with a missing-argument error for generic types and a no-arguments error for the rest. |
| `Serialise.FromDict` | tutorials/tools.py:1325-1334 | A successful decode against a dataclass type yields an instance of that class whose fields are the declared ones, in declaration order. |
| `Serialise.EmptyContainerDecodes` | tutorials/tools.py:1329-1332 | An empty list or dict decodes to itself against every type that is not a dataclass. The type argument is looked up inside the comprehension, so it is never needed when there is no element. |
| `Serialise.MissingTypeArgumentFails` | tutorials/tools.py:1329-1332 | A non-empty list or dict decoded against a type without the needed argument fails with the error of `cls.__args__[i]` for that type. |
| `Serialise.DecodeItems` | tutorials/tools.py:1329-1330 | A successful list decode has as many items as the data. |
| `Serialise.DecodeEntries` | tutorials/tools.py:1331-1332 | A successful dict decode keeps the data's keys in order. |
| `Serialise.DecodeArguments` | tutorials/tools.py:1327-1328 | Successful keyword arguments have exactly the data's keys, in order. |
| `Serialise.Construct` | tutorials/tools.py:1328 | The constructor fails exactly when some declared field has no keyword argument. |
| `Serialise.FromToDict` | tutorials/tools.py:1325-1334 | Decoding the `to_dict` form of a well-typed object against its type gives the object back. |
| `Serialise.RoundTrip` | tutorials/tools.py:1339 | `dataclass_obj_from_dict(cls, dataclass_obj_to_dict(obj)) == obj` for every object that is an instance of `cls`, where `cls` has unique field names. |
| `Serialise.DecodeItemsRoundTrip` | tutorials/tools.py:1330 | The list part of the round trip: each element is rebuilt at its own position. |
| `Serialise.DecodeEntriesRoundTrip` | tutorials/tools.py:1332 | The dict part of the round trip: each value is rebuilt under its own key. |
| `Serialise.DecodeArgumentsRoundTrip` | tutorials/tools.py:1327-1328 | Each field's dict value is rebuilt using the field's declared type. |
| `Serialise.FieldTypeOfDeclared` | tutorials/tools.py:1327 | With unique field names, each field's name finds that field's type. |
| `Serialise.ArgumentOfDistinct` | tutorials/tools.py:1328 | With unique keys, a keyword argument's name finds its own value. |
| `Serialise.ConstructRoundTrip` | tutorials/tools.py:1328 | Given each declared field once, in order, the constructor rebuilds exactly those fields. |
| `Serialise.UnknownKeyFails` | tutorials/tools.py:1327-1328 | A data key that is not a field of the dataclass makes decoding fail. |
| `Serialise.DecodeArgumentsUnknownKey` | tutorials/tools.py:1328 | Decoding the keyword arguments fails once any key names no field. |
| `Serialise.ExcludedFieldBreaksRoundTrip` | tutorials/tools.py:1283-1291 | Excluding any field of the top-level class makes `dataclass_obj_from_dict` fail. |
| `Serialise.ExampleInnerExclusion` | tutorials/tools.py:1305-1308 | Excluding `label` turns a `TrecData` into a dict holding only `question`. |
| `Serialise.ExampleOuterKept` | tutorials/tools.py:1310-1314 | Excluding `name` from `TrecDataList` keeps only `data`. |
| `Serialise.ExampleExclusion` | tutorials/tools.py:1316-1319 | The tutorial call gives `{'data': [{'question': ...}]}`, with no `name` key. |
| `Serialise.ExampleRoundTrip` | tutorials/tools.py:1339 | The tutorial object is rebuilt from its dict form. |
| `Serialise.ExampleExcludedRoundTripFails` | tutorials/tools.py:1344 | Rebuilding from the excluded form fails with the constructor error of `TrecData` missing `label`. |
| `Serialise.ExampleInnerDecodeFails` | tutorials/tools.py:1328 | A `TrecData` dict without `label` cannot be decoded, and the error names `label`. |
| `Tools.GetCurrentWeather` | tutorials/tools.py:14-23 | A known city is reported with a "unit" entry holding exactly the unit passed in, which may be `None`. An unknown location is echoed verbatim, with temperature "unknown" and no "unit" key. |
| `Tools.FirstMatch` | tutorials/tools.py:16-21 | Returns the first table entry whose pattern occurs in the location, or none when no pattern occurs. |
| `Tools.WeatherIsFirstMatch` | tutorials/tools.py:16-23 | The if-chain answers exactly as the first match over the table tokyo, san francisco, paris. |
| `Tools.KnownCityReported` | tutorials/tools.py:14-21 | The first matching city is reported by name with its temperature and the given unit. When no unit is passed, the unit is "fahrenheit". |
| `Tools.TokyoWins` | tutorials/tools.py:16-17 | Any location mentioning tokyo, in any letter case, is answered as Tokyo, whatever else it mentions. |
| `Tools.UnknownLocationEchoed` | tutorials/tools.py:22-23 | A location mentioning no known city is echoed verbatim, with an unknown temperature and no "unit" key. |
| `Tools.WeatherIgnoresCase` | tutorials/tools.py:16-21 | Two locations equal up to letter case both match or both do not. When they match, they get the same answer. |
| `Tools.RunToolCall` | tutorials/tools.py:70-73 | The call fails exactly when the arguments have no "location", since `None.lower()` raises. Otherwise the answer's unit is the "unit" argument, or `None` when that argument is missing, and an unknown location is echoed. |
| `Tools.ToolCallWithoutUnit` | tutorials/tools.py:14-17 | A Tokyo question without a unit gets a `null` unit through the conversation loop, while a direct call gets "fahrenheit". |
| `Text.Lower` | use_cases/agent/react_agent.py:84-85 | `str.lower` keeps the length and lower-cases each ASCII letter at its position. |
| `Text.ToLower` | use_cases/agent/react_agent.py:84-85 | An upper-case letter moves to its lower-case counterpart. Other characters are unchanged. |
| `Text.LowerOfLowerCase` | use_cases/agent/react_agent.py:84-85 | Lower-casing text that has no upper-case letter changes nothing. |
| `Text.ContainsIffOccurs` | use_cases/agent/react_agent.py:147 | Python's `in` on strings holds exactly when the substring occurs at some position. |
| `Text.SplitOn` | use_cases/agent/react_agent.py:146 | `str.split(sep)` always yields at least one piece. |
| `Text.JoinSplitOn` | use_cases/agent/react_agent.py:146 | Joining the pieces of `str.split(sep)` with `sep` gives the text back. |
| `Text.SplitOnPiecesAvoidSeparator` | use_cases/agent/react_agent.py:146 | No piece of `str.split(sep)` contains the separator. |
| `Text.SplitOnFirstIsPrefix` | use_cases/agent/react_agent.py:146 | The first piece of a split is a prefix of the text. |
| `Text.SplitOnCharCount` | use_cases/agent/react_agent.py:121 | Splitting on a one-character separator yields one more piece than there are occurrences of that character. |
| `Text.SplitOnAbsent` | use_cases/agent/react_agent.py:125 | Text without the separator character splits into itself alone. |
| `Text.SplitOnAppend` | use_cases/agent/react_agent.py:125 | Splitting text joined at a separator character gives the pieces of the left part, then those of the right part. |
| `Text.StripLeft` | use_cases/agent/react_agent.py:147 | The result is a suffix of the input. It does not start with whitespace, and everything removed is whitespace. |
| `Text.StripRight` | use_cases/agent/react_agent.py:147 | The result is a prefix of the input. It does not end with whitespace, and everything removed is whitespace. |
| `Text.Strip` | use_cases/agent/react_agent.py:147 | `str.strip` leaves no whitespace at either end of the result. |
| `Text.StripParts` | use_cases/agent/react_agent.py:126 | The text is a whitespace prefix, then the stripped result, then a whitespace suffix. |
| `Text.StripEmpty` | use_cases/agent/react_agent.py:126 | `strip()` is empty exactly when the text is all whitespace. |
| `Text.TakeToken` | use_cases/agent/react_agent.py:79 | Returns the longest whitespace-free prefix. |
| `Text.SplitWhitespace` | use_cases/agent/react_agent.py:79 | `str.split()` yields non-empty tokens without whitespace. |
| `Text.SplitJoinTokens` | use_cases/agent/react_agent.py:79 | Splitting the single-space join of whitespace-free tokens gives the tokens back. |
| `Text.CollapseWhitespace` | use_cases/agent/react_agent.py:78-79 | `" ".join(text.split())` has no leading or trailing whitespace and exactly one space between tokens, and it has the same tokens as its input. |
| `Text.JoinTokensCollapsed` | use_cases/agent/react_agent.py:79 | Joining whitespace-free tokens with single spaces is in canonical spacing. |
| `Normalize.WordRun` | use_cases/agent/react_agent.py:76 | Returns the maximal run of word characters at the start of the text, which is what `\b…\b` delimits. |
| `Normalize.RemovePunctuation` | use_cases/agent/react_agent.py:81-83 | The result holds no ASCII punctuation. A character occurs in it exactly when it occurs in the input and is not punctuation. |
| `Normalize.RemovePunctuationAppend` | use_cases/agent/react_agent.py:83 | Characters are kept or dropped one at a time: the result for `a + b` is the result for `a` followed by the result for `b`. |
| `Normalize.RemovePunctuationChar` | use_cases/agent/react_agent.py:82-83 | A single character is kept exactly when it is not in `string.punctuation`. |
| `Normalize.RemovePunctuationOfClean` | use_cases/agent/react_agent.py:81-83 | Text without punctuation is unchanged. |
| `Normalize.RemoveArticles` | use_cases/agent/react_agent.py:75-76 | No standalone a, an or the is left in the result, and text without one is returned unchanged. |
| `Normalize.ScanWord` | use_cases/agent/react_agent.py:76 | At the start of a maximal word the substitution writes one space if the word is an article and the word itself otherwise, then continues after the word. |
| `Normalize.RemoveArticlesResultFree` | use_cases/agent/react_agent.py:75-76 | After the article substitution, no whole word a, an or the is left, including words exposed by earlier removals. |
| `Normalize.RemoveArticlesOfFree` | use_cases/agent/react_agent.py:75-76 | Article removal leaves article-free text unchanged. |
| `Normalize.RemoveArticlesChars` | use_cases/agent/react_agent.py:75-76 | Article removal introduces no characters other than the input's and the space. |
| `Normalize.ArticleFreeIffNoStandalone` | use_cases/agent/react_agent.py:75-76 | The scanning notion of "article-free" is the same as having no position where a maximal word is a, an or the. |
| `Normalize.CollapseKeepsArticleFree` | use_cases/agent/react_agent.py:78-79 | Collapsing whitespace creates no standalone article. |
| `Normalize.CollapsedIsFixed` | use_cases/agent/react_agent.py:78-79 | Collapsing text already in canonical spacing changes nothing. |
| `Normalize.NormalizeAnswer` | use_cases/agent/react_agent.py:74-88 | The answer has no upper-case letter, no punctuation, canonical spacing, and no standalone a, an or the. |
| `Normalize.NormalizeIdempotent` | use_cases/agent/react_agent.py:74-88 | Normalising an already normalised answer returns it unchanged. |
| `Normalize.NonArticles` | use_cases/agent/react_agent.py:76 | Keeps at most the given words, and none of the kept words is an article. |
| `Normalize.RemoveArticlesWords` | use_cases/agent/react_agent.py:75-76 | For text of word characters and whitespace, the whitespace-separated words after the substitution are the input's words minus the articles, in order. |
| `Normalize.NormalizeAnswerWords` | use_cases/agent/react_agent.py:74-88 | For text of word characters, whitespace and punctuation, the answer is the non-article words of the lower-cased text with punctuation removed, in order, joined by single spaces. |
| `Normalize.NormalizePlainWords` | use_cases/agent/react_agent.py:74-88 | For text of letters, digits and whitespace, the answer is the lower-cased words minus a, an and the, in order, joined by single spaces. |
| `Wiki.Lookup` | use_cases/agent/react_agent.py:142-151 | With no segment mentioning the keyword, the result is "No sentences found with the keyword.". Otherwise it is the matching sentences joined by single spaces, ending with a full stop. |
| `Wiki.MatchingSentences` | use_cases/agent/react_agent.py:147 | There is at most one sentence per segment. |
| `Wiki.MatchingSentencesEmpty` | use_cases/agent/react_agent.py:147-149 | There is no matching sentence exactly when no '.'-separated segment contains the keyword, case-insensitively. |
| `Wiki.MatchingSentencesComplete` | use_cases/agent/react_agent.py:147 | Every segment that mentions the keyword appears, stripped and with '.' appended. |
| `Wiki.MatchingSentencesSound` | use_cases/agent/react_agent.py:147 | Every returned sentence comes from a segment that mentions the keyword. |
| `Wiki.MatchingSentencesAppend` | use_cases/agent/react_agent.py:147 | Selection works segment by segment, so sentences keep their original order. |
| `Wiki.MatchingSentencesEndWithStop` | use_cases/agent/react_agent.py:147 | Every returned sentence ends with '.'. |
| `Wiki.LookupFindsEveryMention` | use_cases/agent/react_agent.py:146-151 | The answer contains every mentioning segment, stripped and with '.' appended. |
| `Wiki.JoinEndsWithLast` | use_cases/agent/react_agent.py:151 | Joining sentences that end with '.' gives text that ends with '.'. |
| `Wiki.JoinContainsPart` | use_cases/agent/react_agent.py:151 | A join contains each of its parts. |
| `Wiki.BuildPageAppend` | use_cases/agent/react_agent.py:119-124 | The page is built paragraph by paragraph, in order. |
| `Wiki.ShortParagraphIgnored` | use_cases/agent/react_agent.py:120-124 | A paragraph with fewer than two spaces, so at most two space-separated pieces, contributes nothing. |
| `Wiki.NonBlankStripped` | use_cases/agent/react_agent.py:126 | Every kept piece is non-empty and does not start with whitespace, and there are no more pieces than before. |
| `Wiki.NonBlankStrippedOne` | use_cases/agent/react_agent.py:126 | One piece is kept, stripped, exactly when its stripped form is not empty. |
| `Wiki.NonBlankStrippedAppend` | use_cases/agent/react_agent.py:126 | The filter works piece by piece: the result for `a + b` is the result for `a` followed by the result for `b`. |
| `Wiki.SplitSentences` | use_cases/agent/react_agent.py:128-130 | There are at least as many pieces as paragraphs. |
| `Wiki.SplitSentencesOne` | use_cases/agent/react_agent.py:130 | One paragraph gives exactly its ". "-separated pieces. |
| `Wiki.SplitSentencesAppend` | use_cases/agent/react_agent.py:129-130 | The pieces of `a + b` are those of `a` followed by those of `b`. |
| `Wiki.PageSentences` | use_cases/agent/react_agent.py:125-131 | Every sentence is non-blank, starts with a non-space, and ends with '.'. |
| `Wiki.PageSentencesOfLine` | use_cases/agent/react_agent.py:125-131 | A page of one line has exactly the sentences of that line: its stripped ". "-pieces that are not blank, stripped, each with '.' appended. |
| `Wiki.PageSentencesAppend` | use_cases/agent/react_agent.py:125-131 | The sentences of two pieces of page joined by a newline are those of the first followed by those of the second. |
| `Wiki.PageSentencesOfLines` | use_cases/agent/react_agent.py:125-131 | The sentences of newline-joined lines are the sentences of each line, in order. |
| `Wiki.PageSentencesAfterLine` | use_cases/agent/react_agent.py:125-131 | Text that ends with a newline can be read apart from what follows it. |
| `Wiki.BuildPageEndsAtLine` | use_cases/agent/react_agent.py:119-124 | With stripped paragraphs, the page is empty or ends with a newline. |
| `Wiki.PageSentencesOfBuildPage` | use_cases/agent/react_agent.py:119-131 | When no paragraph ends with a newline, as stripped paragraphs do not, the sentences of the page are those of the cleaned long paragraphs, each read as a page of its own, in order. A cleaned paragraph may hold newlines, as the text of a `<ul>` list does. |
| `Wiki.PiecesSentencesOfLines` | use_cases/agent/react_agent.py:125-131 | Pieces without a newline are read line by line: each piece gives its stripped, non-blank `". "`-pieces with a full stop. |
| `Wiki.PageSentencesOfBuildPageLines` | use_cases/agent/react_agent.py:119-131 | When, in addition, no cleaned paragraph holds a newline, the sentences of the page are those of each cleaned long paragraph read as one line, in order. |
| `Wiki.FirstFive` | use_cases/agent/react_agent.py:135 | Returns the first five sentences in order, or all of them when there are fewer than five. |
| `Wiki.PageSummary` | use_cases/agent/react_agent.py:134-137 | With no sentence, the result is "No content found on this page.". Otherwise it is the first five sentences, or all of them, joined by single spaces. It then contains each of those sentences and ends with '.'. |
| `Wiki.FirstFiveJoined` | use_cases/agent/react_agent.py:135 | Joining the first five of some sentences that end with '.' gives text that ends with '.' and contains each of them. |
| `Wiki.PageSummaryOfParagraphs` | use_cases/agent/react_agent.py:119-137 | When no paragraph ends with a newline, the summary is the first five sentences of the cleaned long paragraphs, each read on its own, in order, or the no-content message when they have none. |
| `Wiki.PageSummaryKeepsFirstParagraphs` | use_cases/agent/react_agent.py:134-135 | Once the leading paragraphs give five sentences, later paragraphs do not change the summary. |
| `Wiki.Search` | use_cases/agent/react_agent.py:106-137 | Similar titles are shown exactly when the search found any, and at most five are listed, in order. Otherwise the page summary is returned. |
| `Wiki.SimilarTopicsIgnorePage` | use_cases/agent/react_agent.py:106-109 | In the not-found branch the page content plays no part. |
| `Embedder.New` | tutorials/embedder.py:143-148 | Construction succeeds exactly when `new_dim < old_dim`, keeping the three settings. |
| `Embedder.Head` | tutorials/embedder.py:154 | `v[:n]` is a prefix of `v`. For `n >= 0` it has `min(n, len(v))` values. For `n < 0` it has `max(len(v) + n, 0)` values. |
| `Embedder.Call` | tutorials/embedder.py:150-158 | The output has one record per input record, in the same order. Only the vector changes, to its shortened form. |
| `Embedder.UnnormalisedIsPrefix` | tutorials/embedder.py:154-157 | With `normalize=False` each new vector is a prefix of the old one, with at most `new_dim` values. |
| `Embedder.ShrinkWithinNewDim` | tutorials/embedder.py:154-156 | With a normalisation that keeps the length, every new vector has at most `new_dim` values. |
| `Embedder.ShortVectorKept` | tutorials/embedder.py:154 | A vector already within `new_dim` values is kept whole. |
| `Embedder.ShrinkIdempotent` | tutorials/embedder.py:154 | Without normalisation and with `new_dim >= 0`, a second pass changes nothing. |
| `Embedder.NegativeNewDimDropsFromEnd` | tutorials/embedder.py:148-154 | A negative `new_dim`, which the constructor allows, cuts values from the end, and a second pass cuts more. |
| `Routing.Dispatch` | use_cases/generator/intermediate.py:84-89 | The doctor answers exactly when the choice is "doctor", and the lawyer exactly when it is "lawyer". |
| `Routing.DispatchIsExact` | use_cases/generator/intermediate.py:84-88 | Matching is exact, case-sensitive equality: "Doctor" and "other" are declined. |
| `Routing.RouterChoices` | use_cases/generator/intermediate.py:67-71 | The router is offered exactly the keys doctor, lawyer and other. |
| `Routing.RouterChoicesDescribeSpecialists` | use_cases/generator/intermediate.py:67-69 | The doctor and lawyer descriptions are the personas taken from their templates. |
| `Routing.ChatBotCall` | use_cases/generator/intermediate.py:80-89 | A "doctor" choice yields the doctor's answer to the query, and a "lawyer" choice yields the lawyer's. Any other choice yields "Sorry, I cannot help you with that.". |
| `Routing.ChatBotConsultsOnlyChosen` | use_cases/generator/intermediate.py:84-89 | The answer does not depend on a specialist that was not chosen. |
| `Routing.RouterCall` | use_cases/generator/intermediate.py:138-141 | Returns exactly the keys "choice" and "query": the router's choice and the unchanged query. |
| `Routing.ChatCall` | use_cases/generator/intermediate.py:174-182 | Dispatches on `input.get("choice")` and passes `input.get("query")`. Otherwise it yields "Sorry, I am not able to help you with that.". |
| `Routing.ChatMissingKeys` | use_cases/generator/intermediate.py:175-182 | A missing "choice" is declined. A missing "query" reaches the chosen specialist as `None`. |
| `Routing.QACall` | use_cases/generator/intermediate.py:195-203 | The router followed by the chat sends the query to the doctor or the lawyer when the router chooses them. Otherwise it returns the chat's apology. |
| `Routing.CloseFrom` | use_cases/generator/intermediate.py:93 | Finds the first `</SYS>` reachable without crossing a newline, or reports that none is reachable. |
| `Routing.FirstSysPair` | use_cases/generator/intermediate.py:93-95 | Finds the leftmost opening tag that has a match, and then its shortest body. No earlier start and no shorter body match. Reports none exactly when there is no match. |
| `Routing.CreateGeneratorSignature` | use_cases/generator/intermediate.py:91-98 | Returns `None` exactly when the template has no `<SYS>…</SYS>` pair on one line. Otherwise it returns the body of the pair that starts leftmost and has the shortest body, which is the first match of the lazy pattern. |
| `Routing.SignatureOfTagged` | use_cases/generator/intermediate.py:91-98 | A template that opens with a tagged body free of '<' and newlines has that body as its signature. |
| `Routing.DoctorSignature` | use_cases/generator/intermediate.py:26 | The doctor template's signature is " You are a doctor ". |
| `Routing.LawyerSignature` | use_cases/generator/intermediate.py:27 | The lawyer template's signature is " You are a lawyer ". |
| `Labels.PyIndex` | tutorials/dataclass.py:237 | Python list indexing succeeds exactly for `-len <= i < len`, counting negative indices from the end. |
| `Labels.FromDict` | tutorials/dataclass.py:225-239 | A missing `coarse_label` raises KeyError. Otherwise the call succeeds exactly when the label indexes the six-entry table, and fails with IndexError otherwise. On success `thought` is None, `class_index` is the label, and `class_name` is the table entry at that Python index. |
| `Labels.ValidLabelNamed` | tutorials/dataclass.py:226-237 | Labels 0..5 get the table entry at their own index. |
| `Labels.NegativeLabelCountsFromEnd` | tutorials/dataclass.py:237 | Labels -6..-1 get the table entry counted from the end. |
| `Labels.OtherKeysIgnored` | tutorials/dataclass.py:234-238 | Input keys other than `coarse_label` do not affect the result. |
| `Labels.EntityExample` | tutorials/dataclass.py:241 | Label 1 yields "Entity". |
| `Labels.NegativeLabelAccepted` | tutorials/dataclass.py:222-237 | Label -1 is accepted, as "Numeric value" with class index -1, which is outside the documented range. |
| `Labels.FromDictChecked` | tutorials/dataclass.py:222-238 | With the documented range enforced, the call succeeds exactly for labels 0..5, and the class name is the table entry at the class index. |
| `Labels.CheckedAgreesOnDocumentedLabels` | tutorials/dataclass.py:234-238 | The checked version agrees with the original on labels 0..5. |

## Left out

- The HTTP request and HTML parsing in `search`, and the URL built from the entity. The model takes the similar titles and the stripped paragraph texts as inputs.
- `clean_str`: it transcodes via unicode-escape and latin-1, so it is a function parameter. The exceptions it raises are not modelled either: a trailing backslash fails the unicode-escape decoding, and text that is not UTF-8 after the latin-1 step fails the final decoding. The parameter is a total function.
- The text of the not-found message of `search`: the f-string with the Python repr of a list. The model returns the entity and the titles.
- JSON rendering in `get_current_weather`. The answer is a record whose "unit" entry is absent, `null` or a string.
- The OpenAI calls of `run_conversation` and the JSON decoding of the tool arguments. `Tools.RunToolCall` takes the decoded arguments as a map from names to strings, as the tool schema declares; argument values of other JSON types are not modelled.
- Text.Strip: its own contract gives only the shape of the result. That nothing but surrounding whitespace is removed is stated by `Text.StripParts`. An ensures on this widely used function would be instantiated at every use of it.
- Normalize.RemovePunctuation: its own contract gives set membership only. The order of the kept characters is stated by `Normalize.RemovePunctuationAppend` together with `Normalize.RemovePunctuationChar`.
- Wiki.NonBlankStripped: its own contract gives only the shape of the result. The content, the stripped non-blank parts in order, is stated by `Wiki.NonBlankStrippedOne` together with `Wiki.NonBlankStrippedAppend`.
- Wiki.SplitSentences: its own contract gives only a length bound. The content, each paragraph's `". "`-pieces in order, is stated by `Wiki.SplitSentencesOne` together with `Wiki.SplitSentencesAppend`.
- Wiki.PageSentences: its own contract gives only the shape of each sentence. The content is stated line by line by `Wiki.PageSentencesOfLine`, `Wiki.PageSentencesAppend` and `Wiki.PageSentencesOfLines`, and for a built page by `Wiki.PageSentencesOfBuildPage`, which requires only that no paragraph ends with a newline.
- Tools.AddPoints: `add_points` is its own specification, the componentwise sum of two points over unbounded integers, so the model states nothing further about it.
- `normalize_vector` and the embedding values. Normalisation is a function parameter and the element type is generic.
- Embedder.ShrinkWithinNewDim: takes as a precondition that normalisation keeps the vector length, because `normalize_vector` is not part of this model.
- LLM generators are function parameters. A specialist's `.data` is taken to be a string. A failed generation leaves `.data` as `None`, and the exceptions that follow from it are not modelled.
- The `Sequential` container is taken to pass the router's dict to the chat unchanged, because its library code is not part of this model.
- `print` calls, component `repr`s, the `ChatBotWithRouter` construction with model clients, and the async demos.
- `deepcopy` in `DecreaseEmbeddingDim.call`: the model is functional, so the input is never mutated, by construction.
- Embedder.Call: the input records are taken to be distinct objects. `deepcopy` keeps shared objects shared, so in the source a record listed twice is shortened (and normalised) once per listing. For example, with `new_dim = -1`, `[1, 2, 3]` listed twice becomes `[1]` in both places, where the model gives `[1, 2]`. The model shortens each listing once.
- The `parent_key` argument of `dataclass_obj_to_dict` never influences the result, so it is dropped.
- Dataclass field defaults, non-init fields, and values other than primitives, lists, string-keyed dicts and dataclass instances (tuples, sets, non-string keys).
- `DataClass.from_dict` of the library is not part of this model. `Labels.FromDict` takes it to build the record from the three fields it is given.
- Non-integer `coarse_label` values (a TypeError when indexing) and booleans: the input map holds integers only.
- Text is ASCII. Python's Unicode case mapping, Unicode whitespace and Unicode `\w` are not modelled.
- Serialise.FromDict: its ensures covers only the shape of a successful decode of a dataclass. The full behaviour is stated by `FromToDict`, `UnknownKeyFails`, `ExcludedFieldBreaksRoundTrip` `EmptyContainerDecodes`, `MissingTypeArgumentFails` and the example lemmas, not by the contract itself.

## Findings

| source | as written | input that shows it | evidently intended | confidence | as-written member | corrected member |
|---|---|---|---|---|---|---|
| tutorials/dataclass.py:222-237 | `_COARSE_LABELS_DESC[data["coarse_label"]]` accepts negative labels through Python's negative indexing | `{"coarse_label": -1}` yields class index -1 and class name "Numeric value" | only labels 0..5 are valid, as the `class_index` field's description "in range[0, 5]" says | low, not executed | `Labels.NegativeLabelAccepted` | `Labels.FromDictChecked` |
