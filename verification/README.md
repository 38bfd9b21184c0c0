# A verified model of the irs-memory document index

The project models the index of `irs-memory` as one stack and proves what it computes.

- `Lists.dfy`: the doubly linked list with an end sentinel and its iterators, as heap objects.
- `Keys.dfy`, `TrieSpec.dfy`, `TrieShape.dfy`, `TrieOrder.dfy`: bytes, slots and their order; what a compressed
  trie over a set of keys looks like, where an append lands and what a lookup resolves to, as functions of the
  key set alone; how links change when a leaf is hung or an edge is split; visiting order.
- `Dictionary.dfy`: the mutable trie itself - nodes, child tables and label buffers on the heap - with append,
  lookup, both visitors and destruction, each proved against those functions. `DictionaryLaws.dfy` draws the
  consequences: radix invariant, canonical form, whole runs of appends. `Agreement.dfy` says exactly on which key
  sets a trie behaves as a map.
- `Codec.dfy`, `Formats.dfy`, `OffsetsFormat.dfy`: 64-bit words, the three file formats and their round trips.
  `Storage.dfy`: the storage object that writes and reads them.
- `Tokeniser.dfy`, `Ratios.dfy`, `Weights.dfy`: tokens, term and reverse document frequency. `Index.dfy`: the naive
  definition of the inverted index. `IndexTries.dfy`: its construction in tries, with their lookups and appends,
  for every input. `IndexRuns.dfy`: when the two agree at every step. `IndexOutcome.dfy`: when the finished index is
  the naive one. `IndexBounds.dfy`: postings against header counts. `Batches.dfy` joins everything: a batch from its
  documents to the files and back. `Overread.dfy`: a batch of which a term cannot be retrieved.
- `Ranking.dfy`, `Scoring.dfy`, `Summary.dfy`: the score of a sentence, the insertion sort over two interleaved
  iterators, and the summary taken from the last ten ranks.

## Results that differ from what the code seems to promise

- Append compares edges up to letter case, lookup compares only the first byte of all edges but the last. So a
  dictionary is a map only under conditions: `LandingExact`, `MultimapIff` and `AgreementIff` give them exactly,
  `CaseOrderMatters`, `LaxLookupMisses` and `DocumentKeysClash` give inputs on which it is not. A key may lose its
  letter case and still be stored beside the other one: `OthersPart` says when, `LettersTakenOver` is an example.
- The inverted index is built with these very lookups and appends. It is the naive index at every step if and only
  if no step clashes (`StepIff`, `RunIff`); a clash is a lookup that takes the term or the document for another one
  met before, or an append that lands at another. The batch "his hit has" clashes (`FailingBatch`). The finished index
  is the naive one if and only if no clash does lasting damage (`OutcomeIff`). On all batches index and cache hold the
  same keys, so the header count is never used unset, and every posting is of a document of the batch
  (`StepKeepsWhole`).
- A record header counts documents that contain the term as a substring, while postings are written for tokens of
  positive weight. In the naive index there are never more postings than counted, and `HeaderCountIff` says when the
  two agree. In an index with clashes there may be more: `BoundedIff` and `BoundBreaksIff` say exactly when, and the
  batch "his hit", "has" is one (`OverfullBatch`). The reader takes as many postings as are counted (`TermsReadBack`,
  `RecordReadsBack`): it stops short of an excess (`OverfullRead`), and where the header counts more it goes on into
  the bytes behind the record, which for the last record is always an error (`LastRecordOverread`) and for others
  may be one: after "art", "cart", "dart", "dog" the term "art" cannot be retrieved (`ArtFails`).
- Saving and loading the term offsets may move a list to another key: `SaveLoadIff` says exactly when it does not.
- The sort drops scores above the first one and may misplace the last one (`ClosedForm`, `PermutationIff`,
  `SortedIff`). The summary then may write outside its slots: `SlotsSufficeIff` says exactly when it does not, and
  `DocumentOverrun` gives a document on which it does. A document of one paragraph is safe (`OneParagraph`). Rank
  entry `k` selects sentence `k - 1`.
- A paragraph contains its sentence exactly when the sentence has no inner newline (`PartContainsIff`).
- The delimiter string of terms ends at its embedded NUL, so brackets and underscore do not delimit.

## Model

| member | source | states |
|---|---|---|
| Keys.SlotInjective | irs-memory/irs-storage/irs_storage.c:11-22 | the slot `128 + byte` (8-bit) is injective, in range for every byte but 127, and orders bytes as signed numbers |
| Keys.FoldExact | irs-memory/irs-data/irs-container/irs-dictionary/irs_dictionary.c:113 | two bytes fold together if and only if they are equal or one is a capital, 65 to 90, and the other is 32 more |
| Keys.SortedUnique | irs-memory/irs-data/irs-container/irs-dictionary/irs_dictionary.c:225-242 | a set of keys has at most one enumeration in slot order, so a visiting order is determined by the set visited |
| TrieSpec.LandingExact | irs-memory/irs-data/irs-container/irs-dictionary/irs_dictionary.c:87-151 | an append lands at its own key if and only if no edge on its way differs from the key in letter case alone |
| TrieSpec.LandingFolds | irs-memory/irs-data/irs-container/irs-dictionary/irs_dictionary.c:113 | wherever an append lands, that key equals the appended one up to letter case |
| TrieSpec.StoredNeverClashes | irs-memory/irs-data/irs-container/irs-dictionary/irs_dictionary.c:87-151 | a stored key is always found again by append, whatever else is stored |
| TrieSpec.LandingAgain | irs-memory/irs-data/irs-container/irs-dictionary/irs_dictionary.c:87-151 | once a key has landed somewhere, appending it again lands there again, clash or not |
| TrieSpec.ClashPersists | irs-memory/irs-data/irs-container/irs-dictionary/irs_dictionary.c:87-151 | appending a clashing key again clashes again: it never gets a node of its own |
| TrieSpec.FoldFreeNeverClashes | irs-memory/irs-data/irs-container/irs-dictionary/irs_dictionary.c:113 | among keys on which case folding is the identity no append clashes |
| TrieSpec.StoredResolvesToItself | irs-memory/irs-data/irs-container/irs-dictionary/irs_dictionary.c:169-206 | every stored key satisfies the lookup condition for its own node |
| TrieSpec.ResolvesUnique | irs-memory/irs-data/irs-container/irs-dictionary/irs_dictionary.c:169-206 | at most one node satisfies the lookup condition (length, first byte of every edge, whole last edge) for a string |
| TrieSpec.FindKeyIff | irs-memory/irs-data/irs-container/irs-dictionary/irs_dictionary.c:169-206 | lookup finds a string under its own key exactly if that is stored, unless the string resolves to another key, which no stored key does |
| TrieSpec.GetExactIff | irs-memory/irs-data/irs-container/irs-dictionary/irs_dictionary.c:215-223 | the same for the lists returned; `Agreement.AgreementIff` gives the condition on the keys themselves |
| TrieSpec.AppendExactIff | irs-memory/irs-data/irs-container/irs-dictionary/irs_dictionary.c:157-167 | append is insertion into a multimap if and only if there is no case clash |
| TrieShape.AddLeaf | irs-memory/irs-data/irs-container/irs-dictionary/irs_dictionary.c:96-107 | a new leaf keeps the links well formed: every link leads one edge down, and from every node the way to every node below it exists |
| TrieShape.AddMiddle | irs-memory/irs-data/irs-container/irs-dictionary/irs_dictionary.c:117-143 | splitting an edge and re-hanging the old node below the middle keeps the links well formed |
| TrieShape.Canonical | irs-memory/irs-data/irs-container/irs-dictionary/irs_dictionary.c:87-151 | well-formed links whose nodes are the root, keyed, or branching have exactly the nodes the key set calls for |
| TrieShape.LinksDetermined | irs-memory/irs-data/irs-container/irs-dictionary/irs_dictionary.c:87-151 | the node set determines every link |
| TrieShape.LandingAfterMatch | irs-memory/irs-data/irs-container/irs-dictionary/irs_dictionary.c:109-120 | what matching `j` bytes of an edge up to case says about where the whole key lands |
| TrieShape.FollowStep | irs-memory/irs-data/irs-container/irs-dictionary/irs_dictionary.c:177-191 | following an edge in lookup after comparing only its first byte keeps the lookup condition |
| TrieShape.FollowEnd | irs-memory/irs-data/irs-container/irs-dictionary/irs_dictionary.c:193-206 | comparing the last edge as a whole decides the lookup condition |
| TrieOrder.DownSlot | irs-memory/irs-data/irs-container/irs-dictionary/irs_dictionary.c:225-242 | visiting a child and then what is below it keeps the listed paths complete for the slots so far and sorted |
| TrieOrder.UpSlot | irs-memory/irs-data/irs-container/irs-dictionary/irs_dictionary.c:252-269 | visiting what is below a child and then the child keeps the listed paths complete, repeat-free and children first |
| Dictionary.Dictionary.constructor | irs-memory/irs-data/irs-container/irs-dictionary/irs_dictionary.c:18-27 | a new dictionary satisfies the trie invariant and stores nothing |
| Dictionary.Dictionary.HangLeaf | irs-memory/irs-data/irs-container/irs-dictionary/irs_dictionary.c:96-107 | the writes that create a leaf, and that nothing else changes |
| Dictionary.Dictionary.LeafStructure | irs-memory/irs-data/irs-container/irs-dictionary/irs_dictionary.c:96-107 | after these writes the heap invariant (tables, labels, ownership of buffers) holds with one more node |
| Dictionary.Dictionary.InsertMiddle | irs-memory/irs-data/irs-container/irs-dictionary/irs_dictionary.c:117-143 | the writes that split an edge: the old buffer goes to the middle node, a fresh copy of the rest to the moved node |
| Dictionary.Dictionary.SplitStructure | irs-memory/irs-data/irs-container/irs-dictionary/irs_dictionary.c:117-143 | after these writes the heap invariant holds with one more node, and no two nodes share a buffer |
| Dictionary.Dictionary.MatchEdge | irs-memory/irs-data/irs-container/irs-dictionary/irs_dictionary.c:111-115 | the length of the agreement of label and key up to letter case, maximal within both |
| Dictionary.Dictionary.FollowEdge | irs-memory/irs-data/irs-container/irs-dictionary/irs_dictionary.c:109-144 | one round of append: follows or splits the edge; contents are unchanged and the landing of the key is preserved |
| Dictionary.Dictionary.AppendToNode | irs-memory/irs-data/irs-container/irs-dictionary/irs_dictionary.c:81-155 | finds or makes the node at the landing of the key, changes no stored value, and leaves only justified nodes |
| Dictionary.Dictionary.PushData | irs-memory/irs-data/irs-container/irs-dictionary/irs_dictionary.c:161-166 | pushes a value to the list of one node and changes no other list |
| Dictionary.Dictionary.Append | irs-memory/irs-data/irs-container/irs-dictionary/irs_dictionary.c:157-167 | the contents become exactly the specified ones: the value is appended to the list at the landing of the key, every other list is unchanged, the invariant is kept |
| Dictionary.Dictionary.NodesAreCanonical | irs-memory/irs-data/irs-container/irs-dictionary/irs_dictionary.c:87-151 | in every valid dictionary the nodes are exactly those its keys call for |
| Dictionary.Dictionary.GetLastNode | irs-memory/irs-data/irs-container/irs-dictionary/irs_dictionary.c:169-206 | lookup returns the one node that satisfies the lookup condition, or none exists |
| Dictionary.Dictionary.Get | irs-memory/irs-data/irs-container/irs-dictionary/irs_dictionary.c:215-223 | the list found is that of the key the string resolves to, if any |
| Dictionary.Dictionary.IsIn | irs-memory/irs-data/irs-container/irs-dictionary/irs_dictionary.c:208-213 | true exactly if some stored key satisfies the lookup condition |
| Dictionary.Dictionary.VisitDown | irs-memory/irs-data/irs-container/irs-dictionary/irs_dictionary.c:225-250 | calls back every node but the root once, in strictly increasing slot order, a prefix before its extensions, with the list of its path |
| Dictionary.Dictionary.VisitUpFrom | irs-memory/irs-data/irs-container/irs-dictionary/irs_dictionary.c:252-269 | calls back every node below a node once, children before parents |
| Dictionary.Dictionary.Destroy | irs-memory/irs-data/irs-container/irs-dictionary/irs_dictionary.c:29-70 | frees every node once after its children, and no child table or label buffer twice |
| DictionaryLaws.RadixInvariant | irs-memory/irs-data/irs-container/irs-dictionary/irs_dictionary.c:81-155 | every node but the root has a non-empty label, hangs in the slot of its first byte, and is keyed or has two children |
| DictionaryLaws.SameKeysSameTrie | irs-memory/irs-data/irs-container/irs-dictionary/irs_dictionary.c:81-167 | two dictionaries with the same key set have the same nodes, links and labels, however they were built |
| DictionaryLaws.SameKeysSameVisit | irs-memory/irs-data/irs-container/irs-dictionary/irs_dictionary.c:225-250 | and the same visiting order, which is sorted and holds exactly the justified non-empty paths |
| DictionaryLaws.RunIsMultimap | irs-memory/irs-data/irs-container/irs-dictionary/irs_dictionary.c:157-167 | after any run of appends without case clashes each key holds exactly what was appended under it, in order |
| DictionaryLaws.MultimapIff | irs-memory/irs-data/irs-container/irs-dictionary/irs_dictionary.c:157-167 | the finished run holds exactly what was appended under each key if and only if no append of it clashed |
| DictionaryLaws.FoldFreeRun | irs-memory/irs-data/irs-container/irs-dictionary/irs_dictionary.c:157-167 | runs over keys without upper-case letters never clash |
| DictionaryLaws.TwoAppends | irs-memory/irs-data/irs-container/irs-dictionary/irs_dictionary.c:87-167 | two appends: behind the first byte the second key takes over the letters of the first as far as it follows it up to case; if that makes it the first key its value joins that list, otherwise it is stored beside it |
| DictionaryLaws.TwinsJoin | irs-memory/irs-data/irs-container/irs-dictionary/irs_dictionary.c:87-167 | a key that differs from the first only by capitals against their small letters behind the first byte joins its list |
| DictionaryLaws.OthersPart | irs-memory/irs-data/irs-container/irs-dictionary/irs_dictionary.c:87-167 | any other key of the same length gets a list of its own, and that under itself if and only if it agrees with the first in every byte before the one at which they part |
| DictionaryLaws.LettersTakenOver | irs-memory/irs-data/irs-container/irs-dictionary/irs_dictionary.c:87-167 | "aBd" appended behind "abc" is stored as "abd" |
| DictionaryLaws.CaseOrderMatters | irs-memory/irs-data/irs-container/irs-dictionary/irs_dictionary.c:113 | two keys that differ in case give different dictionaries in the two orders |
| DictionaryLaws.LaxLookupMisses | irs-memory/irs-data/irs-container/irs-dictionary/irs_dictionary.c:177-203 | a concrete lookup that returns the list of another key |
| Agreement.LaxClashMakesShadow | irs-memory/irs-data/irs-container/irs-dictionary/irs_dictionary.c:177-203 | a string taken for another key has the same length, first byte and tail, with a node before the tail made by a third key |
| Agreement.ShadowClashes | irs-memory/irs-data/irs-container/irs-dictionary/irs_dictionary.c:177-203 | and any such three keys make lookup take the string for the first of them |
| Agreement.AgreementIff | irs-memory/irs-data/irs-container/irs-dictionary/irs_dictionary.c:81-223 | every trie over keys of a set treats the keys of the set as a map does if and only if no two are case twins and none shadows another |
| Agreement.SeparableIsExact | irs-memory/irs-data/irs-container/irs-dictionary/irs_dictionary.c:81-223 | over such a set lookup finds exactly what is stored and append lands where it says |
| Agreement.SeparableIsMap | irs-memory/irs-data/irs-container/irs-dictionary/irs_dictionary.c:157-223 | and the whole dictionary behaves as a map of lists |
| Codec.WordRoundTrip | irs-memory/irs-storage/irs_storage.c:111-112 | a 64-bit number survives being written as eight bytes and read back |
| Codec.LowFirst | irs-memory/irs-storage/irs_storage.c:111-112 | the eight bytes are the base-256 digits, lowest first |
| Codec.PiecesTile | irs-memory/irs-storage/irs_storage.c:97-131 | records written one after another stand back to back at the running counter and fill the file |
| Formats.DocumentsLayout | irs-memory/irs-storage/irs_storage.c:97-131 | document `i` starts where the earlier records end, as its size word and then its bytes, and reading at its offset yields it exactly, unless it is larger than INT_MAX |
| Formats.DocumentStartsIncrease | irs-memory/irs-storage/irs_storage.c:104-110 | different documents have different offsets |
| Formats.PostingsReadBack | irs-memory/irs-storage/irs_storage.c:539-604 | written postings whose documents can be read come back in order, whatever the header counts beyond them |
| Formats.OversizeDerails | irs-memory/irs-storage/irs_storage.c:569-570 | at the first document larger than INT_MAX the reader skips eight bytes and goes on in the middle of the posting |
| Formats.FailsIff | irs-memory/irs-storage/irs_storage.c:539-604 | a posting cannot be read if and only if its offset word is cut short, the offset has no whole size word in the documents file, or a document of at most INT_MAX bytes runs past the end or has its significancy cut short |
| Formats.ShortReadFails | irs-memory/irs-storage/irs_storage.c:539-604 | behind readable postings one that cannot be read makes every longer read an error |
| Formats.HeaderDecides | irs-memory/irs-storage/irs_storage.c:496-537 | a record with its header cut short is a read error; otherwise as many postings are read behind the header as it counts |
| Formats.RecordLayout | irs-memory/irs-storage/irs_storage.c:391-452 | the bytes of a record: size of the term, term, count, and for every posting its offset, the size of its significancy, and the significancy |
| Formats.RecordFails | irs-memory/irs-storage/irs_storage.c:496-613 | a record that counts beyond a posting that cannot be read is a read error |
| Formats.TermsReadBack | irs-memory/irs-storage/irs_storage.c:391-452 | records tile the terms file, and reading a record, whatever its header counts, yields that many of its postings in order; where the header counts more than there are, what the bytes behind the record read as follows |
| Formats.ExactHeaderReadsBack | irs-memory/irs-storage/irs_storage.c:496-613 | with an exact header count reading yields exactly the written triples in written order |
| Formats.LastRecordOverread | irs-memory/irs-storage/irs_storage.c:496-613 | the last record can be read if and only if its header counts no more postings than it has |
| OffsetsFormat.OffsetsFileReadsBack | irs-memory/irs-storage/irs_storage.c:650-674 | a saved file parses to the two sizes and the same entries |
| OffsetsFormat.OffsetsLayout | irs-memory/irs-storage/irs_storage.c:709-783 | the bytes of an offsets file: the two sizes, and for every entry the size of the term, the term, and the offset |
| OffsetsFormat.CutFile | irs-memory/irs-storage/irs_storage.c:650-674 | a file cut inside an entry yields exactly the entries before it |
| OffsetsFormat.LoadHoldsIff | irs-memory/irs-storage/irs_storage.c:650-674 | loading different entries leaves exactly one entry under each given key if and only if every entry lands at its key over the keys before it |
| OffsetsFormat.LoadRestoresIff | irs-memory/irs-storage/irs_storage.c:671-672 | loading different entries restores every term with its own cells and nothing else if and only if the terms are distinct and none meets a case clash on the way in |
| OffsetsFormat.SaveLoadIff | irs-memory/irs-storage/irs_storage.c:676-783 | whatever its lists name, as long as no two start with the same entry: save and load give every list its first cells back if and only if every saved entry lands where it was saved from over the keys before it, and no list is under the empty key |
| OffsetsFormat.NamedLands | irs-memory/irs-storage/irs_storage.c:676-783 | where every list names its own key this is so exactly if the sorted keys meet no case clash |
| OffsetsFormat.SaveAgain | irs-memory/irs-storage/irs_storage.c:754-783 | a restored dictionary writes the same entries again |
| OffsetsFormat.SaveLoadSave | irs-memory/irs-storage/irs_storage.c:676-783 | in terms of the format: sizes come back, first cells under the condition of `SaveLoadIff`, and then the second file equals the first byte for byte |
| OffsetsFormat.LoadEntryCelled | irs-memory/irs-storage/irs_storage.c:671-672 | whatever a term clashes with, its offset and itself land together, so every list starts with an offset and a term |
| OffsetsFormat.LoadStarts | irs-memory/irs-storage/irs_storage.c:411-415 | after loading different entries, whatever clashes, every list starts with one of them whose term is its key up to letter case, and no two with the same |
| Storage.Storage.constructor | irs-memory/irs-storage/irs_storage.c:31-62 | a fresh storage has zero counters and an empty dictionary |
| Storage.Storage.WriteDocuments | irs-memory/irs-storage/irs_storage.c:83-137 | the file is the documents file of the batch, the counter grows by its length, each document is paired with its offset |
| Storage.Storage.WritePosting | irs-memory/irs-storage/irs_storage.c:340-389 | appends offset, size and significancy and advances the counter by their length |
| Storage.Storage.WriteRecord | irs-memory/irs-storage/irs_storage.c:391-452 | appends header and postings of a term and advances the counter by their length |
| Storage.Storage.WriteTerms | irs-memory/irs-storage/irs_storage.c:454-473 | the file is the terms file of the records, and every term is noted under the counter at the start of its record |
| Storage.Storage.ReadOne | irs-memory/irs-storage/irs_storage.c:539-604 | one round of the reading loop, with every read that may fall short and the documents that are skipped |
| Storage.Storage.ReadDocumentsByTerm | irs-memory/irs-storage/irs_storage.c:496-613 | reading at an offset yields what the format says, read errors included |
| Storage.Storage.Find | irs-memory/irs-storage/irs_storage.c:622-644 | one term looked up and read; a term not found yields nothing |
| Storage.Storage.GetDocuments | irs-memory/irs-storage/irs_storage.c:615-648 | one result per term in order; it fails if and only if some term cannot be read |
| Storage.Storage.SavedInOrder | irs-memory/irs-storage/irs_storage.c:776-777 | visiting nodes and skipping those without data goes through the stored keys in sorted order |
| Storage.Storage.WriteEntries | irs-memory/irs-storage/irs_storage.c:709-752 | the visit appends exactly the entries of the stored terms |
| Storage.Storage.Save | irs-memory/irs-storage/irs_storage.c:754-783 | the saved file is the two counters followed by the entries in sorted order |
| Storage.Storage.ReadTermOffsets | irs-memory/irs-storage/irs_storage.c:650-674 | appends what the entries say up to the first read that falls short |
| Storage.Storage.Load | irs-memory/irs-storage/irs_storage.c:676-707 | counters and dictionary become what the file says; no file changes nothing; a file without both counters is a read error and leaves the dictionary alone |
| Storage.Reload | irs-memory/irs-storage/irs_storage.c:676-783 | a storage saved, loaded by a fresh one and saved again: counters come back, first offsets and terms if and only if every saved entry lands where it was saved from, and then the two files are equal |
| Tokeniser.RunsInOrder | irs-memory/irs-storage/irs_storage.c:146-157 | tokens come in text order, non-empty and separated |
| Tokeniser.RunsAreMaximal | irs-memory/irs-storage/irs_storage.c:146-157 | a stretch of text is a token if and only if it is a maximal run of non-delimiters |
| Tokeniser.TokensAreRuns | irs-memory/irs-storage/irs_storage.c:146-157 | tokens are non-empty, delimiter-free and substrings of the text |
| Tokeniser.JoinedTokens | irs-memory/irs-storage/irs_storage.c:146-157 | the tokens joined are the text without its delimiters |
| Tokeniser.TermBytes | irs-memory/irs-storage/irs_storage.c:139-160 | a byte belongs to some term if and only if it is no space, comma, dot or hyphen |
| Tokeniser.SentenceBytes | irs-memory/irs-engine/irs_engine.c:373-396 | a byte belongs to some sentence if and only if it is no dot, exclamation or question mark |
| Tokeniser.Strtok | irs-memory/irs-storage/irs_storage.c:147-156 | one call returns the next maximal run and steps over the delimiter behind it |
| Tokeniser.Tokenise | irs-memory/irs-storage/irs_storage.c:139-160 | the list of all tokens in order |
| Tokeniser.ShortTerms | irs-memory/irs-engine/irs_engine.c:188-214 | the tokens of at most seven bytes and no others, each as often and in the order as among the tokens |
| Ratios.ProductBelowOne | irs-memory/irs-engine/irs_engine.c:434-443 | the product of two position factors below one is below one |
| Weights.CalculateTermFrequency | irs-memory/irs-storage/irs_storage.c:193-209 | the share of a term among the terms of a document |
| Weights.FrequencyBounds | irs-memory/irs-storage/irs_storage.c:193-209 | a frequency lies in [0, 1] and is positive exactly for terms of the document |
| Weights.FrequenciesSumToOne | irs-memory/irs-storage/irs_storage.c:193-209 | the frequencies of the distinct terms of a document sum to exactly one |
| Weights.GetDocumentsWithTerm | irs-memory/irs-storage/irs_storage.c:162-184 | the offsets of exactly the documents that contain the term as a substring, as many as there are such documents |
| Weights.ReverseFrequencyBounds | irs-memory/irs-storage/irs_storage.c:186-191 | for a term of some document the divisor lies between one and the batch size; the reverse frequency is never negative, and zero exactly if every document contains the term |
| Weights.SignificantIff | irs-memory/irs-storage/irs_storage.c:211-215 | a term weighs something in a document exactly if it is a term of it and some document lacks it |
| Weights.SignificancyInNumbers | irs-memory/irs-storage/irs_storage.c:186-215 | the significancy times the number of tokens is the number of occurrences times the logarithm of the quotient of the batch size by the number of documents containing the term |
| Index.DecimalInjective | irs-memory/irs-storage/irs_storage.c:234 | different offsets have different decimal keys |
| Index.DecimalFoldFree | irs-memory/irs-storage/irs_storage.c:234 | decimal keys never clash in append |
| Index.DocumentKeysClash | irs-memory/irs-storage/irs_storage.c:254-255 | but lookup can confuse them: with documents at 110 and 119 stored, 129 is taken for 119 |
| Index.PostingStep | irs-memory/irs-storage/irs_storage.c:309-326 | posting one document keeps the entry of its term as the naive definition has it |
| Index.AlreadyPosted | irs-memory/irs-storage/irs_storage.c:243-257 | skipping a document already posted loses nothing |
| Index.OtherTerm | irs-memory/irs-storage/irs_storage.c:239-327 | handling one term changes nothing for any other |
| IndexTries.StepKeys | irs-memory/irs-storage/irs_storage.c:243-307 | one term of a document gives index and cache the same key or none, for all inputs |
| IndexTries.StepAt | irs-memory/irs-storage/irs_storage.c:239-327 | for all inputs, what one term of a document does as seen from each key: its home gains an entry if there is none, and the document if the term posts; first cells and everything else stay |
| IndexTries.StepKeepsWhole | irs-memory/irs-storage/irs_storage.c:239-327 | for all inputs: index and cache keep the same keys; every key holds an inner dictionary, a term of the batch that is the key up to letter case, and the header count and reverse frequency of that term; the inner dictionary lists exactly one offset and one positive weight under each numeral, of a document of the batch |
| IndexTries.TakeReverseFrequency | irs-memory/irs-storage/irs_storage.c:259-283 | the cached reverse frequency if lookup finds one, else the computed one, cached; the header count is set exactly in the second case |
| IndexTries.AssignTerm | irs-memory/irs-storage/irs_storage.c:239-327 | the loop body as written, on any dictionaries it can meet, takes the specified step and keeps them whole |
| IndexRuns.ExactStep | irs-memory/irs-storage/irs_storage.c:239-327 | a step at which nothing clashes keeps the dictionaries those of the naive definition |
| IndexRuns.ClashingTermMissing | irs-memory/irs-storage/irs_storage.c:259-307 | a term that lookup takes for another, or that would land at another, gets no entry |
| IndexRuns.ClashingDocumentMissing | irs-memory/irs-storage/irs_storage.c:243-257 | a document that lookup takes for another of the term is skipped although its weight is positive |
| IndexRuns.StepIff | irs-memory/irs-storage/irs_storage.c:239-327 | a step keeps the dictionaries those of the naive definition if and only if neither the term nor the document clashes with the naive sets before it |
| IndexRuns.RunIff | irs-memory/irs-storage/irs_storage.c:217-338 | the dictionaries agree with the naive definition at every step of a batch if and only if no step clashes |
| IndexRuns.NoClashIndex | irs-memory/irs-storage/irs_storage.c:217-338 | if no step clashes the finished index posts term `t` under document `d` with TF times IDF exactly if `t` is a token of `d` and the product is positive, with the header count beside it |
| IndexRuns.ExactNeverClashes | irs-memory/irs-storage/irs_storage.c:217-338 | batches whose terms and document keys are separable never clash |
| IndexRuns.FailingBatch | irs-memory/irs-storage/irs_storage.c:217-338 | the one-document batch "his hit has" clashes at its third term, and "has" gets no entry |
| IndexOutcome.OwnStep | irs-memory/irs-storage/irs_storage.c:259-307 | a step keeps every entry under its own term if and only if its term does not land at another key; a foreign entry stays |
| IndexOutcome.RightStep | irs-memory/irs-storage/irs_storage.c:309-326 | among own entries a step keeps all postings right if and only if it does not post under another term that the document lacks or has with another frequency; a wrong posting stays |
| IndexOutcome.EnteredIff | irs-memory/irs-storage/irs_storage.c:286-300 | among own entries a term has an entry if and only if some occurrence before was not taken for another term |
| IndexOutcome.Settled | irs-memory/irs-storage/irs_storage.c:243-257 | behind the last occurrence of a term in a document it is settled whether the document is posted: it is unless there the term is taken for another one, or the document for another document |
| IndexOutcome.OutcomeIff | irs-memory/irs-storage/irs_storage.c:217-338 | the finished index of a batch is the naive one if and only if no step lands at a foreign key, posts a foreign weight or loses a document, and every term is once not taken for another |
| IndexOutcome.NaiveInNumbers | irs-memory/irs-storage/irs_storage.c:162-338 | the naive index in numbers: the entry counts the documents that contain the term, and lists a document exactly if occurrences times logarithm of the quotient is positive, with a weight that is this over the number of tokens |
| IndexOutcome.AssignTerms | irs-memory/irs-storage/irs_storage.c:217-338 | for every batch the loops build the specified index; it is the naive one if and only if no clash does lasting damage, in particular if no step clashes |
| IndexBounds.HeaderCountIff | irs-memory/irs-storage/irs_storage.c:162-184 | in the naive index postings never exceed the header count, and equal it if and only if some document lacks the term and every document containing it as a substring has it as a token |
| IndexBounds.StepBound | irs-memory/irs-storage/irs_storage.c:239-327 | for all inputs, a step breaks the bound of postings by header counts if and only if it posts under a term that it finds and whose count is used up; once broken it stays broken |
| IndexBounds.BoundedIff | irs-memory/irs-storage/irs_storage.c:217-338 | the finished index of a batch keeps to its header counts if and only if no step does that |
| IndexBounds.BoundBreaksIff | irs-memory/irs-storage/irs_storage.c:239-327 | from the naive index the bound breaks exactly if the term is taken for another, the document for none posted there, that term weighs something, and all documents counted for it are posted |
| IndexBounds.OverfullBatch | irs-memory/irs-storage/irs_storage.c:217-338 | the batch "his hit", "has": under "his" stand a header count of 1 and postings of both documents |
| Batches.TermOffsets | irs-memory/irs-storage/irs_storage.c:411-415 | after writing any records every term has the offset of its own record and nothing else if and only if the terms are distinct and, in visiting order, meet no clash |
| Batches.TriplesExact | irs-memory/irs-storage/irs_storage.c:340-390 | on every batch the triples of a record are the documents of its inner dictionary, each once, with offset, text and the weight listed |
| Batches.TriplesOfTerm | irs-memory/irs-storage/irs_storage.c:496-613 | in the naive index these are exactly the documents in which the term is significant, with its weight there |
| Batches.FoundAt | irs-memory/irs-storage/irs_storage.c:622-644 | after writing any records, looking a string up reads nothing or the record whose offset the list it resolves to starts with |
| Batches.PostingsReadable | irs-memory/irs-storage/irs_storage.c:539-604 | on every batch, whatever clashed, every posting written points at a document that can be read |
| Batches.RecordReadsBack | irs-memory/irs-storage/irs_storage.c:475-613 | on every batch, whatever clashed, every record reads back as its documents in written order as far as its header counts, and beyond them as the bytes behind it read |
| Batches.Retrieved | irs-memory/irs-storage/irs_storage.c:475-648 | on every batch retrieving any string yields nothing or what the record yields that it is taken for |
| Batches.BatchReadsBack | irs-memory/irs-storage/irs_storage.c:475-648 | if every entry is under its own term and the terms load without a clash, a term yields its own record, and with an exact header count exactly its documents |
| Batches.OverfullRead | irs-memory/irs-storage/irs_storage.c:475-613 | after adding "his hit" and "has" the record of "his" holds two documents and reading it yields one |
| Overread.ArtFails | irs-memory/irs-storage/irs_storage.c:496-648 | after adding "art", "cart", "dart" and "dog" the record of "art" counts three documents and holds one, and retrieving it is a read error |
| Overread.RetrieveArt | irs-memory/irs-storage/irs_storage.c:475-648 | the same with a storage object: add the four documents, retrieve "art", get a read error |
| Batches.VisitTerms | irs-memory/irs-storage/irs_storage.c:391-473 | the records handed to the writer are those of the finished dictionaries in visiting order |
| Batches.AddDocuments | irs-memory/irs-storage/irs_storage.c:475-494 | for every batch added to a fresh storage the files hold the documents and the built index; every string is retrieved as `Retrieved` and, under its conditions, `BatchReadsBack` say; the index is the naive one if and only if no clash does lasting damage |
| Batches.ExactIsSafe | irs-memory/irs-storage/irs_storage.c:475-494 | batches whose terms and document keys are separable meet both conditions |
| Batches.AddedReloads | irs-memory/irs-storage/irs_storage.c:676-783 | on every batch: the term offsets it leaves keep their first cells through save and load if and only if every saved entry lands where it was saved from |
| Batches.OwnReloads | irs-memory/irs-storage/irs_storage.c:676-783 | if every entry is under its own term and the terms load without a clash they come back unchanged |
| Lists.StepsUndo | irs-memory/irs-data/irs-container/irs-iterator/irs_iterator.c:21-49 | a step forward is undone by a step back except from the sentinel, and a step back by a step forward except from nowhere |
| Lists.List.constructor | irs-memory/irs-data/irs-container/irs-list/irs_list.c:11-22 | a fresh list is valid and empty |
| Lists.List.SplicedIsValid | irs-memory/irs-data/irs-container/irs-list/irs_list.c:81-89 | setting the links around a new element keeps symmetry, sentinel, size and contents |
| Lists.List.Push | irs-memory/irs-data/irs-container/irs-list/irs_list.c:60-90 | inserts behind a link and changes nothing else; without a link the list starts over with one element |
| Lists.List.PushFront | irs-memory/irs-data/irs-container/irs-list/irs_list.c:97-114 | inserts in front of a link or of the sentinel and changes nothing else |
| Lists.List.PushBack | irs-memory/irs-data/irs-container/irs-list/irs_list.c:92-95 | appends an element |
| Lists.List.PopBack | irs-memory/irs-data/irs-container/irs-list/irs_list.c:116-134 | unlinks and returns the last element; an empty list stays as it is |
| Lists.List.Iterate | irs-memory/irs-data/irs-container/irs-list/irs_list.c:190-196 | a forward iterator stands before the first element; on a list emptied by popping it starts at the popped link |
| Lists.List.IterateBack | irs-memory/irs-data/irs-container/irs-list/irs_list.c:198-204 | a reverse iterator stands behind the last element |
| Lists.Iterator.Next | irs-memory/irs-data/irs-container/irs-iterator/irs_iterator.c:21-34 | moves as the cursor does, the step from the sentinel to null included |
| Lists.Iterator.Prev | irs-memory/irs-data/irs-container/irs-iterator/irs_iterator.c:36-49 | moves back as the cursor does |
| Lists.Iterator.Get | irs-memory/irs-data/irs-container/irs-iterator/irs_iterator.c:56-62 | the element at the iterator, or null |
| Lists.Forward | irs-memory/irs-data/irs-container/irs-iterator/irs_iterator.c:21-34 | stepping forward to the end yields the elements in order |
| Lists.Backward | irs-memory/irs-data/irs-container/irs-iterator/irs_iterator.c:36-49 | stepping back to the front yields them in reverse |
| Ranking.StepOver | irs-memory/irs-engine/irs_engine.c:475-480 | whether a score follows, found by stepping on and back; otherwise the iterator stays at the sentinel |
| Ranking.FindPlace | irs-memory/irs-engine/irs_engine.c:464-482 | where the inner loop stops: in front of the first score not below, at the end, or nowhere |
| Ranking.InsertOne | irs-memory/irs-engine/irs_engine.c:457-485 | one pass inserts the score, drops it if it exceeds all sorted ones, or, for the last score, puts it at an end after one comparison |
| Ranking.Sort | irs-memory/irs-engine/irs_engine.c:446-489 | the sorted list is the specified ranking of the scores |
| Ranking.ClosedForm | irs-memory/irs-engine/irs_engine.c:446-489 | the ranking: the kept scores ascending with ties reversed, and the last score in front if it is at most the least of them, else at the back |
| Ranking.PermutationIff | irs-memory/irs-engine/irs_engine.c:446-489 | nothing is dropped if and only if no score but the last exceeds the first |
| Ranking.SortedIff | irs-memory/irs-engine/irs_engine.c:446-489 | the ranking is sorted if and only if the last score is at most every kept one or at least the first |
| Scoring.Find | irs-memory/irs-engine/irs_engine.c:416 | the first occurrence of a substring, or that there is none |
| Scoring.DefinePart | irs-memory/irs-engine/irs_engine.c:414-432 | the text between the last newline at or before the sentence and the first newline after its first byte; both scans end |
| Scoring.PartContainsIff | irs-memory/irs-engine/irs_engine.c:414-444 | the paragraph contains its sentence if and only if the sentence has no inner newline; then the first occurrences coincide |
| Scoring.PositionBounds | irs-memory/irs-engine/irs_engine.c:398-412 | a position factor lies in [0, 1) |
| Scoring.DefineScore | irs-memory/irs-engine/irs_engine.c:398-444 | the score, at most 9999, is the integer part of 10000 times the share of the document behind the first byte of the sentence times the same share of its paragraph, stated in integers; there is none exactly if the sentence has an inner newline |
| Scoring.ScoreUnique | irs-memory/irs-engine/irs_engine.c:434-444 | document and sentence determine the score |
| Scoring.EarlierScoresHigher | irs-memory/irs-engine/irs_engine.c:434-444 | in a document of one paragraph a sentence that occurs earlier scores at least as high |
| Summary.SlotsExact | irs-memory/irs-engine/irs_engine.c:522-546 | a slot is written exactly if one of the last ranks points at the sentence after it |
| Summary.CopySentence | irs-memory/irs-engine/irs_engine.c:527-541 | the inner loop copies sentence `index - 1` into its slot if there is one, and writes nothing else; it reports a slot that does not exist |
| Summary.FillSlots | irs-memory/irs-engine/irs_engine.c:514-546 | over at most ten ranks from the end the slots come to hold exactly the chosen sentences, unless a slot to be written does not exist |
| Summary.Collect | irs-memory/irs-engine/irs_engine.c:548-557 | the filled slots in order |
| Summary.Summarise | irs-memory/irs-engine/irs_engine.c:514-558 | the summary holds, in document order, exactly the sentences in front of those that the last ten ranks point at; there is one if and only if every slot written exists |
| Summary.SummaryIsSubsequence | irs-memory/irs-engine/irs_engine.c:514-558 | what is selected are at most ten sentences, each as it stands at its position, at increasing positions: `x` exactly if one of the last ten ranks points at `x + 1` |
| Summary.OutrankingBehind | irs-memory/irs-engine/irs_engine.c:446-489 | in a ranking the scores that outrank one are those behind it |
| Summary.SlotsSufficeIff | irs-memory/irs-engine/irs_engine.c:514-558 | every slot written exists if and only if: with ten or more kept scores behind the last score, each kept score that fewer than ten outrank has index at most their number plus one; otherwise at most one score but the last was dropped |
| Summary.KeptScoresFit | irs-memory/irs-engine/irs_engine.c:514-558 | in particular when nothing was dropped; the last sentence is never selected then |
| Summary.DocumentOverrun | irs-memory/irs-engine/irs_engine.c:514-588 | an eight-byte document whose sentences score 4375, 5000, 5000, 4375 and whose first rank points at the third slot of two |
| Summary.Sentences | irs-memory/irs-engine/irs_engine.c:373-396 | the sentences of a document as a list |
| Summary.SentenceScores | irs-memory/irs-engine/irs_engine.c:491-512 | every sentence gets its score and its position; there are no scores exactly if a sentence has an inner newline |
| Summary.SummariseDocument | irs-memory/irs-engine/irs_engine.c:560-588 | for every document: no score exactly if a sentence has an inner newline, a missing slot exactly if the scores do not satisfy the condition of `SlotsSufficeIff`, else the summary |
| Summary.OneParagraph | irs-memory/irs-engine/irs_engine.c:560-588 | a document without newlines is always summarised, because its first sentence scores highest |

## Left out

- The server, the configuration and logging code, and the facade in `irs-memory/irs_memory.c`, which forward calls.
- Channels, paths and write errors: a file is a sequence of bytes, a write succeeds, a read fails at the end of the file. The `g_error` branches of the writers are not part of this model.
- The text form of a significancy and the values of the logarithm: the first is a function from numbers to bytes, the second any function that is 0 at 1 and positive above 1.
- Floating-point rounding: frequencies, weights and scores are real numbers.
- Widths of counters: sizes, counts and offsets are unbounded; round trips assume that they fit the 64-bit fields they are written to.
- Storages that add a second batch: the data files are truncated while the counters go on.
- The reverse-frequency cache stores the address of a loop-local variable (`irs-memory/irs-storage/irs_storage.c:274`); the model stores the value.
- Language detection by words and alphabets, access masks, `irs_iterator_reset`, `irs_list_remove_if`, `irs_list_clear` and `irs_list_destroy`.
- Memory lifetimes except for what trie destruction frees; the one-byte term buffer of the offsets reader is a sequence of the size read.
- Key bytes 0 and 127: a C string holds no 0, and byte 127 has no slot in a child table; keys with them are excluded.
- Dictionary.Dictionary.PushData: the data list of a node is a sequence here, not an object of the list class, so sharing of data lists is not modelled.
- Dictionary.Dictionary.Destroy: lists the nodes in the order in which they are freed instead of ending their lifetime.
- Lists.List.Iterate: what an iterator steps over on a list emptied by popping, whose `begin` is stale, is not modelled.
- Codec.WordRoundTrip: fixes the low byte first; the code writes words in the byte order of the machine.
- Formats.PostingsReadBack: for postings whose documents can be read; `OversizeDerails` says what happens at a larger document.
- Storage.Storage.ReadDocumentsByTerm: the partial list that the caller clears after a read error is not modelled.
- Storage.Storage.Load: a read that falls short inside a counter leaves that counter open.
- OffsetsFormat.SaveLoadIff: for dictionaries in which no two lists start with the same offset and term, which holds after every batch (`AddedReloads`) but not for every offsets file.
- IndexTries.AssignTerm: dictionaries are values that map keys to lists, changed by the append and lookup functions that the heap dictionary is proved to compute; sharing of inner dictionaries by reference is not modelled.
- Index.DecimalInjective: the document key is the exact decimal numeral; the code prints it through a `double`, which is the same below 2^53.
- Batches.RecordReadsBack: for documents of at most INT_MAX bytes and sizes that fit 64 bits; what the bytes behind a record read as, where its header counts more, is given by the reader itself.
- Batches.VisitTerms: obtains the visiting order from the set of keys by sorting; that the visitor of the heap dictionary has this order, without the root, is `VisitDown`.
- Scoring.DefineScore: reports that there is no score where the code subtracts from null.
- Summary.Summarise: stops and reports a missing slot where the code writes outside its array.
- Summary.SummariseDocument: a single document; the loop over documents repeats it.
