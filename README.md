# kcwraps in Dafny

A verified model of the core of kcwraps, a Go library with two layers.

- **kc** stores values under composite keys in an ordered key-value store (Kyoto Cabinet). It enumerates the children of a key prefix and answers "first immediate child at or above a bound" for an external set-operation engine.
- **kol** is an object layer on top of kc. It stores a record under `["pk", type, id]`, derives secondary-index (`"2i"`) and foreign-key (`"fi"`) entries from field tags, evaluates query filters, and decides which change event a subscription receives.

The model follows the Go code, module by module:

| Dafny module | file | models |
|---|---|---|
| `KeyCodec` | codec.dfy | The composite-key codec: escape, join and split, and the byte order of `bytes.Compare`. |
| `ByteText` | text.dfy | `strings.Split` and `strings.Join` on one separator byte, and big-endian reading. |
| `OrderedStore` | store.dfy | The ordered store: a strictly sorted sequence of records, a cursor, and the get, set and remove calls. |
| `SetOp` | setop.dfy | The result type shared with the set-operation engine. |
| `KcSets` | kc_sets.dfy | The kc/sets.go revision: `kcSkipper.Skip`, `DB.skipper`, `SetOp` result shaping, `each`, `GetCollection`, `ClearAll`. |
| `KcTruncSkipper` | kc_skipper.dfy | The kc/skipper.go revision: `minimum`, `skip`, `Skip`. |
| `KcFlat` | kc_kc.dfy | The kc/kc.go revision with a bare 0x00 separator: `keyCombine`, `each`, `GetCollection`, `SubSet`, `SubGet`, `SubRemove`, `SubClear`. |
| `KolRecord` | kol_record.dfy | Records as explicit data (type name and fields), and reading and setting the `Id` field. |
| `KolStore` | kol_store.dfy | The store as the object layer uses it: a map from part lists to stored values. |
| `KolIndex` | kol_index.dfy | `indexBytes`, `indexKey`, `foreignKey`, the `fk<...>` tag pattern, `indexKeys`, `index`, `deIndex`. |
| `KolQuery` | kol_query.dfy | `source` and `match` of `Or`, `And`, `Equals` and `Join`, `Query.match`, the tree built by `Query.each`, and `Where`, `Except`, `First`, `All`. |
| `KolSubscription` | kol_subscription.dfy | Operation bits and names, the `handle` decision, the id matcher, and the subscription registry. |
| `KolDb` | kol_db.dfy | `randomBytes`, `get`, `save`, `create`, `update`, `Set` and `Del`. It also holds an invariant that the store holds exactly its records and their index entries. |

kc/sets.go, kc/skipper.go and kc/kc.go are historical revisions that define the same Go names (`kcSkipper`, `KV`, `each`). Each is modelled in its own module.

The Go `join`, `split` and `escape` functions are not part of this model's source files. Their byte layout is the one kc/kc_test.go pins down:
- every 0x00 inside a part is doubled;
- every part is closed by 0x00 0x01.

So `escape(p)` equals `join([p])`, terminator included (`KeyCodec.EscapeIsJoin`).

Sequential Go code is modelled as imperative Dafny.
- Cursor loops, the `minimum` loop, the `indexKeys` loop, `randomBytes` and the store writes are methods.
- Each method is proved equal to a specification function, and the lemmas state what those functions mean.
- The store handle, cursors, skippers, queries, the subscription registry and the kol database are classes whose methods modify their fields.

Where the code and the library's description differ, the model follows the code:
- In the kc/sets.go skipper, a `Step` off the last record reports an error. The code compares the error text with `"no error"` instead of `"no record"` (kc/sets.go:77, :119).
- The kc/skipper.go skipper, when `Skip` is called with a min and without inc, jumps to the bound read as a number plus one. That number drops leading zero bytes (`KcTruncSkipper.PlusOneDropsLeadingZeros`). Under a superkey that starts with 0x00 (its first part is empty or starts with 0x00) the jump then lands past every key under the superkey, and `Skip` ends although children beyond min remain (`KcTruncSkipper.SkipLeadingZeroMisses`). Under any other superkey the jump lands right (`KcTruncSkipper.SkipBoundExclusive`).
- `Query.match` never lets the `Except` filter make a record fail to match. The filter can only add an error.
- `Join.match` always fails once its reads succeed. It hands `First` a `reflect.Value` from `reflect.New(typ)` (kol/query.go:124), and `identify` rejects anything that is not a Go reference (kol/query.go:277, kol/kol.go:74-77). The model returns `NotReference` there (`KolQuery.JoinMatchMeaning`), so a query whose Where filter is a Join matches no record of its type without an error (`KolQuery.QueryJoinNeverMatches`). The meaning the design gives Join, a query over the store's records, is kept as `KolQuery.IntendedJoinMatch`.
- A record stored exactly at the enumerated prefix ends `each` at once, even when the prefix has children.

## Model

| member | source | states |
|---|---|---|
| KeyCodec.SplitJoin | kc/kc_test.go:41-59 | split(join(ks)) == ks for every list of parts, including empty parts and parts that hold 0x00 |
| KeyCodec.SplitJoinAppend | kc/kc_test.go:41-59 | a key that starts with join(ks) splits into ks followed by the parts of the rest |
| KeyCodec.SplitEscaped | kc/kc_test.go:23-28 | reading one escaped, terminated part completes the part being read and resumes with an empty part |
| KeyCodec.SplitEscapedStep | kc/kc_test.go:23-28 | a non-doubled byte is copied as is; a doubled 0x00 is read back as one 0x00 |
| KeyCodec.JoinLayout | kc/kc_test.go:23-28 | join([[0,1],[1,2]]) is exactly [0,0,1,0,1,1,2,0,1] |
| KeyCodec.EscapeIsJoin | kc/sets.go:30-34 | escape(p) == join([p]), so superkey ++ escape(min) is the composite key one part below the superkey |
| KeyCodec.JoinInjective | kc/kc_test.go:41-59 | a composite key determines its parts |
| KeyCodec.JoinAppend | kc/sets.go:186-187 | join of a concatenation is the concatenation of the joins |
| KeyCodec.SplitPrefixed | kc/skipper.go:115-121 | a key prefixed by join(ks) splits into ks first |
| KeyCodec.CanonicalExtension | kc/sets.go:204-208 | a codec-written key that strictly extends join(ks) has more parts than ks |
| KeyCodec.CompareSigns | kc/sets.go:47 | bytes.Compare is -1, 0 or 1 exactly when the first key sorts before, equals, or sorts after the second |
| KeyCodec.BelowTotal | kc/sets.go:65 | the byte order is total |
| KeyCodec.BelowTransitive | kc/sets.go:65 | the byte order is transitive |
| KeyCodec.PrefixBelow | kc/sets.go:99 | a proper prefix sorts first |
| KeyCodec.PrefixBlock | kc/sets.go:204-211 | keys that share a prefix are contiguous in store order |
| KeyCodec.BlockEnded | kc/sets.go:99-102 | once a scan meets a key not prefixed by p, no later key is prefixed by p |
| KeyCodec.JoinOrderCounterexample | kc/kc_test.go:23-28 | the codec does not preserve order: ["a"] sorts after ["a\x00"] |
| ByteText.SplitOnInverse | kc/sets.go:136 | joining the parts of strings.Split gives the text back, and no part holds the separator |
| ByteText.SplitOnNoSeparator | kc/sets.go:136 | a text without the separator is a single part |
| OrderedStore.LowerBound | kc/override.go:43-45 | a jump lands on the first record whose key is not below the bound |
| OrderedStore.LookupFinds | kc/override.go:72-74 | a get finds v exactly when the record (k, v) is stored |
| OrderedStore.LookupAbsent | kc/override.go:72-74 | a get finds nothing exactly when no record has the key |
| OrderedStore.Insert | kc/override.go:139-141 | a set keeps the keys sorted, replaces the record with key k, and keeps every other record |
| OrderedStore.Delete | kc/override.go:129-131 | a remove keeps the keys sorted and keeps exactly the records with other keys |
| OrderedStore.DeleteAll | kc/override.go:129-131 | removing a list of keys keeps exactly the records whose key is not listed |
| OrderedStore.LookupInsert | kc/override.go:139-141 | a get after a set of k returns the value set; other keys read as before |
| OrderedStore.LookupDelete | kc/override.go:129-131 | a get after a remove of k finds nothing; other keys read as before |
| OrderedStore.Cursor.JumpKey | kc/override.go:43-45 | the cursor moves to the lower bound; "no record" when that is past the end |
| OrderedStore.Cursor.Get | kc/override.go:20-26 | reads the record at the cursor and advances on request; "no record" past the end |
| OrderedStore.Cursor.Step | kc/sets.go:76-82 | moves one record on; moving off the last record reports "no record" |
| OrderedStore.Db.Set | kc/override.go:139-141 | the records become Insert of the old records |
| OrderedStore.Db.Get | kc/override.go:72-74 | returns the stored value, or None exactly when no record has the key |
| OrderedStore.Db.Remove | kc/override.go:129-131 | the records become Delete of the old records; "no record" when the key was absent |
| OrderedStore.Db.OpenCursor | kc/override.go:62-69 | a new cursor over the current records |
| KcSets.SuperkeyBelowRealMin | kc/sets.go:30-34 | the superkey sorts strictly before superkey ++ escape(min) |
| KcSets.KcSkipper.Land | kc/sets.go:39-95 | the positioning phase of Skip moves the cursor as Position says: no data, a step fault, or a landing position |
| KcSets.KcSkipper.Skip | kc/sets.go:24-133 | the outcome and the final cursor position are those of SkipSpec |
| KcSets.ScanLeast | kc/sets.go:97-132 | the scan stops on the first immediate child from the cursor on, or reports none when there is none |
| KcSets.ScanOutcome | kc/sets.go:97-132 | a scan result is an immediate child's last part with its value; its only error is the "no record" of a step off the end |
| KcSets.SkipResult | kc/sets.go:97-115 | Skip returns only a key prefixed by the superkey with exactly length+1 parts; the result Key is its last part and its value the only value |
| KcSets.SkipFromBelow | kc/sets.go:47-63 | from at or before the superkey, or below superkey ++ escape(min), Skip yields the least immediate child at or above that bound, or nothing |
| KcSets.SkipAtBoundExclusive | kc/sets.go:65-84 | at exactly superkey ++ escape(min) with inc false, Skip steps once and yields the least immediate child strictly above the bound |
| KcSets.SkipAhead | kc/sets.go:64-95 | a cursor already past the bound does not move, and Skip yields the least immediate child from the cursor on |
| KcSets.Skipper | kc/sets.go:135-148 | the leaf path is split on '/'; the superkey is the join of the parts and length is the number of parts |
| KcSets.SetOpKVs | kc/sets.go:150-162 | each engine result becomes one pair with the result key as its only part and the first value |
| KcSets.Each | kc/sets.go:186-219 | the cursor loop yields exactly EachSpec of the store's records |
| KcSets.ScanIsChildren | kc/sets.go:196-212 | from at or above the prefix, with no record at the prefix, the scan yields exactly the children |
| KcSets.EachIsChildren | kc/sets.go:186-212 | with no record exactly at the prefix, each yields exactly the immediate children of the prefix, in store order |
| KcSets.NoneBeforePrefix | kc/sets.go:190 | no record before the jump target is a child of the prefix |
| KcSets.EachStopsAtPrefixRecord | kc/sets.go:204-211 | a record stored exactly at the prefix makes each yield nothing |
| KcSets.ChildrenMembers | kc/sets.go:204-208 | the children are exactly the records strictly under the prefix with len(prefix)+1 parts, as (parts, value) |
| KcSets.ChildParts | kc/sets.go:204-208 | a child of keys splits into keys followed by exactly one more part |
| KcSets.ChildrenOrdered | kc/sets.go:174-184 | the children come out with strictly ascending composite keys |
| KcSets.GetCollectionExact | kc/sets.go:176-184 | GetCollection returns exactly the (full parts, value) pairs of the children and nothing from sibling prefixes |
| KcSets.GetCollection | kc/sets.go:176-184 | returns the pairs each yields, in order |
| KcSets.ClearAll | kc/sets.go:167-171 | removes exactly the keys each yields |
| KcSets.ClearAllEmpties | kc/sets.go:167-171 | afterwards GetCollection is empty; with no record at the prefix every other record stays |
| KcTruncSkipper.MinOf | kc/skipper.go:16-23 | the least of the first argument and the variadic ints |
| KcTruncSkipper.Minimum | kc/skipper.go:16-23 | the loop returns a value at most every argument that is one of them, and the first argument when none follow |
| KcTruncSkipper.MinimumIsMinOf | kc/skipper.go:16-23 | the least value is unique, so Minimum equals MinOf |
| KcTruncSkipper.NatToBeInverse | kc/skipper.go:60 | big.Int.Bytes read back as a big-endian number is the number |
| KcTruncSkipper.BeToNatInverse | kc/skipper.go:60 | bytes without a leading zero are the big.Int.Bytes of their number |
| KcTruncSkipper.PlusOneLastByte | kc/skipper.go:60 | without a leading zero and with a last byte below 0xff, plus one increments the last byte |
| KcTruncSkipper.PlusOneDropsLeadingZeros | kc/skipper.go:60 | a bound with a leading 0x00 loses it: [0,1,5,0,1] becomes [1,5,0,2] |
| KcTruncSkipper.KcSkipper.Probe | kc/skipper.go:25-78 | skip ends where ProbeSpec says, reports found exactly on a hit, and returns the record there |
| KcTruncSkipper.ProbeFullKeys | kc/skipper.go:36-58 | comparing full keys, skip finds the first record from the cursor on that passes the test, or reports none |
| KcTruncSkipper.KcSkipper.Skip | kc/skipper.go:80-124 | the outcome and the final cursor position are those of SkipSpec, whose results SkipNilMin, SkipBoundInc and SkipBoundExclusive state |
| KcTruncSkipper.SkipResult | kc/skipper.go:109-123 | a result comes only from a key strictly longer than and prefixed by the superkey; its Key is the part right after the superkey's parts |
| KcTruncSkipper.SkipNilMin | kc/skipper.go:88-92 | with min nil, inc does not matter and Skip yields the first record from the cursor on that lies strictly under the superkey, or nothing |
| KcTruncSkipper.SkipNoPanic | kc/skipper.go:115-121 | on codec-written keys, splitKey[length] never indexes out of range |
| KcTruncSkipper.TruncOrder | kc/skipper.go:32 | a key cut to the bound's length is below the bound exactly when the whole key is, and above it exactly when the whole key is above it without starting with it |
| KcTruncSkipper.TruncPasses | kc/skipper.go:32 | with keys cut to the bound's length, the test with gt -1 is "not below the bound" and with gt 0 is "beyond every key that starts with the bound" |
| KcTruncSkipper.NextBound | kc/skipper.go:60 | raising the last byte of the bound gives the least key beyond every key that starts with the bound |
| KcTruncSkipper.ProbeTruncInc | kc/skipper.go:25-78 | with keys cut to the bound's length and gt -1, skip lands on the first record from the cursor on that is not below the bound, or reports none |
| KcTruncSkipper.ProbeTruncExc | kc/skipper.go:25-78 | with keys cut to the bound's length and gt 0, a bound without a leading 0x00 and no record under min + 1, skip lands on the first record from the cursor on that is beyond every key starting with the bound, or reports none |
| KcTruncSkipper.NoZeroTwo | kc/skipper.go:60 | no composite key starts with an escaped part followed by 0x00 0x02, so nothing lies under the raised bound |
| KcTruncSkipper.CanonicalNotUnderNext | kc/skipper.go:60 | no codec-written key starts with superkey ++ escape(min) whose closing 0x01 is raised to 0x02 |
| KcTruncSkipper.SkipBoundInc | kc/skipper.go:80-124 | with a min and inc, on sorted codec-written keys, Skip yields the first child from the cursor on whose key is at or above superkey ++ escape(min), and ends only when there is none |
| KcTruncSkipper.SkipBoundExclusive | kc/skipper.go:80-124 | with a min and without inc, on sorted codec-written keys and a bound not starting with 0x00, Skip yields the first child from the cursor on whose key lies beyond every key starting with superkey ++ escape(min), and ends only when there is none |
| KcTruncSkipper.SkipLeadingZeroMisses | kc/skipper.go:60-66 | under the superkey of one empty part, with children [x] < [y], Skip from [x] without inc ends although child [y] lies beyond it |
| KcTruncSkipper.SkipWithoutLeadingZeroFinds | kc/skipper.go:80-124 | under the superkey of a part [c], c not 0x00, Skip from [0x05] without inc yields child [0x06] with its value |
| KcFlat.KeyCombine | kc/kc.go:9-14 | keyCombine(k1, k2) is k1, then 0x00, then k2 |
| KcFlat.KeyCombineInjective | kc/kc.go:9-14 | under one key1 the combined key determines key2 |
| KcFlat.KeyCombineAmbiguous | kc/kc.go:9-14 | different (key1, key2) pairs can share a store key: ([], [0]) and ([0], []) |
| KcFlat.UnderIsPrefix | kc/kc.go:127 | the loop's test accepts exactly the keys prefixed by key1 ++ [0x00] |
| KcFlat.ScanIsUnderKey | kc/kc.go:119-131 | from at or above key1, with no record at key1, the scan yields exactly the records under key1 |
| KcFlat.EachIsUnderKey | kc/kc.go:110-131 | with no record exactly at key1, each yields (key2, value) for every record key1 ++ [0] ++ key2, in store order |
| KcFlat.NoneBeforeJump | kc/kc.go:113-118 | no record before the jump to key1 is under key1 |
| KcFlat.EachStopsAtKey1Record | kc/kc.go:127-129 | a record stored exactly at key1 makes each yield nothing |
| KcFlat.UnderKeyMembers | kc/kc.go:127-130 | the enumerated pairs are exactly the records under key1, as (key2, value) |
| KcFlat.UnderKeyOrdered | kc/kc.go:97-108 | the key2 halves come out strictly ascending |
| KcFlat.Each | kc/kc.go:110-138 | the cursor loop yields exactly EachSpec of the store's records |
| KcFlat.GetCollection | kc/kc.go:100-108 | returns the pairs each yields, in order |
| KcFlat.GetCollectionExact | kc/kc.go:97-108 | with no record at key1, a pair is returned exactly when its combined key holds its value, in ascending order |
| KcFlat.SubSet | kc/kc.go:49-51 | sets keyCombine(key1, key2) to value |
| KcFlat.SubGet | kc/kc.go:56-58 | reads keyCombine(key1, key2); None is "no record" |
| KcFlat.SubRemove | kc/kc.go:63-65 | removes keyCombine(key1, key2), reporting "no record" when it was absent |
| KcFlat.SubSetSubGet | kc/kc.go:49-65 | SubGet after SubSet returns the value, after SubRemove nothing, and another key2 under key1 is untouched |
| KcFlat.SubClear | kc/kc.go:91-95 | removes the combined key of every pair each yields |
| KcFlat.CombinedKeysUnder | kc/kc.go:91-95 | every key SubClear removes is under key1 |
| KcFlat.ClearedKeys | kc/kc.go:91-108 | with no record at key1, SubClear removes exactly the keys under key1, which are the pairs GetCollection returns |
| KcFlat.SubClearEmpties | kc/kc.go:91-108 | afterwards GetCollection(key1) is empty; with no record at key1 every other record stays |
| KolRecord.FieldByName | kol/kol.go:84 | FieldByName finds a field exactly when one has that name, and returns its value |
| KolRecord.IdValue | kol/kol.go:73-100 | identify succeeds exactly when the Id field is a byte slice, and then reads its bytes (nil as None) |
| KolRecord.WithId | kol/kol.go:305-307 | setting the Id changes only Id fields and keeps the type and the field count |
| KolRecord.WithIdReads | kol/kol.go:305-307 | after setting the Id of a record that has one, the Id reads back |
| KolStore.Store.Put | kc/override.go:139-141 | stores the value under the key list and changes nothing else |
| KolStore.Store.Get | kc/override.go:72-74 | returns the stored value, or None exactly when the key list is absent |
| KolStore.Store.Remove | kc/override.go:129-131 | deletes the entry; "no record" exactly when it was absent |
| KolIndex.BeFixedValue | kol/index.go:24-29 | fixed-width big-endian bytes read back as the number |
| KolIndex.BeFixedOrder | kol/index.go:24-29 | big-endian bytes of one width sort as the numbers do |
| KolIndex.Int64RoundTrip | kol/index.go:24-29 | the 8 two's-complement bytes of an int decode to it |
| KolIndex.Int64Order | kol/index.go:24-29 | index bytes of ints keep their order within one sign, and negatives sort after non-negatives |
| KolIndex.IndexBytes | kol/index.go:20-47 | string and []byte as is, bool as [1] or [0], int as 8 big-endian bytes decoding to it; every other kind fails |
| KolIndex.IndexBytesInjective | kol/index.go:20-47 | two values of one indexable kind share index bytes only when equal |
| KolIndex.IndexKey | kol/index.go:49-62 | ["2i", type, field, indexBytes(value), id], failing exactly when indexBytes fails |
| KolIndex.ForeignKey | kol/index.go:64-87 | ["fi", type, match field, id field, indexBytes(match value), fk bytes, id], failing exactly when indexBytes fails |
| KolIndex.MatchAtUnique | kol/index.go:18 | at one position fk<([^>]+)> has at most one match |
| KolIndex.MatchHere | kol/index.go:18 | whether a match starts at i is decided by the first '>' after "fk<" |
| KolIndex.FkMatchSound | kol/index.go:108-109 | what the scanner finds is a match of the pattern, and no match starts earlier |
| KolIndex.FkMatchComplete | kol/index.go:108-109 | when the scanner finds nothing, the pattern matches nowhere |
| KolIndex.FkTargetMatches | kol/index.go:108-109 | an fk target is the submatch of the leftmost match, and there is none exactly when nothing matches |
| KolIndex.FkTargetOfTag | kol/index.go:108-109 | the tag parameter fk<F> targets F |
| KolIndex.ParamStepOk | kol/index.go:95-139 | one tag parameter keeps the loop invariant: keys owned, 2i keys for fields already indexed, no field indexed twice |
| KolIndex.FieldsFoldOk | kol/index.go:90-143 | the loop over fields keeps that invariant |
| KolIndex.IndexKeysShape | kol/index.go:89-144 | every derived key is a five-part 2i or seven-part fi key of the record, and no field gets two 2i keys |
| KolIndex.IndexKeysBadFk | kol/index.go:108-138 | an fk tag on a non-[]byte field, or naming a missing field, makes indexKeys fail |
| KolIndex.IndexKeys | kol/index.go:89-144 | the loop over fields and tag parameters returns IndexKeysSpec |
| KolIndex.ParamStepCovers | kol/index.go:95-139 | one tag parameter only adds keys and names, keeps every name in alreadyIndexed backed by its 2i key, and leaves its own index or fk key in place |
| KolIndex.FieldsFoldCovers | kol/index.go:90-143 | after the loop over fields from i on, every tag parameter of those fields has left its keys in place |
| KolIndex.IndexKeysComplete | kol/index.go:93-130 | when indexKeys succeeds, a field tagged index has its 2i key among the keys, and a field tagged fk<T> has its fi key and T's 2i key there; field names are distinct, as in any Go struct |
| KolIndex.PutAll | kol/index.go:146-157 | setting every key of a list adds exactly those keys with the marker and keeps the rest |
| KolIndex.RemoveAllPresent | kol/index.go:159-170 | removing keys that are all present, each once, succeeds and removes exactly them |
| KolIndex.RemoveAllDuplicate | kol/index.go:159-170 | a key listed twice fails with "no record" on its second removal |
| KolIndex.RemoveAllAbsent | kol/index.go:159-170 | a listed key that is absent makes the removal fail with "no record" |
| KolIndex.IndexDeIndex | kol/index.go:146-170 | index succeeds on fresh keys, and deIndex afterwards restores the store exactly |
| KolIndex.Index | kol/index.go:146-157 | the store and error afterwards are IndexSpec |
| KolIndex.DeIndex | kol/index.go:159-170 | the store and error afterwards are DeIndexSpec |
| KolQuery.SourceOf | kol/query.go:20-144 | Equals fails exactly on a filter value of an unindexable kind and is otherwise one key; Join needs the match field; Or and And succeed exactly when every child does, as a union or intersection with one source per child |
| KolQuery.StringOf | kol/index.go:20-47 | a string field reads as its bytes, a missing field as "<invalid Value>" |
| KolQuery.FieldBytesAs | kol/query.go:154 | a string filter reads the field with String, which never fails; another filter kind fails on a missing field or one of another kind, and otherwise takes the field's index bytes |
| KolQuery.JoinReads | kol/query.go:101-122 | succeeds exactly when the match record identifies, has the match field, that field has index bytes, and the record has an Id; it returns those bytes and the Id |
| KolQuery.Matches | kol/query.go:36-159 | Join fails; Equals with an unindexable filter value fails; a string Equals is byte equality with the field's String; an empty Or is false and an empty And is true |
| KolQuery.SourcesOf | kol/query.go:20-62 | the children's sources in order, failing exactly when some child fails |
| KolQuery.EqualsSourceHoldsIndexKeys | kol/query.go:134-144 | the Equals source is the indexKey prefix, so a matching record's index key is one of its children |
| KolQuery.JoinSourceHoldsForeignKeys | kol/query.go:81-99 | the Join source is the foreignKey prefix, so every foreign key of the matched record is one of its children |
| KolQuery.AnyMatchesFirstDecisive | kol/query.go:36-43 | Or.match returns the answer of the first child that matches or fails, and false when none does |
| KolQuery.AllMatchFirstDecisive | kol/query.go:64-72 | And.match returns the answer of the first child that does not match or fails, and true when none does |
| KolQuery.OrAndMeaning | kol/query.go:36-72 | without errors, Or is "some child matches" and And is "every child matches" |
| KolQuery.JoinMatchMeaning | kol/query.go:101-126 | the code's Join.match is the NotReference failure; the intended one, once the match record, its match field, its index bytes and the record's Id read, holds exactly when the query for the type with match field = match value and id field = the record's Id returns a stored record |
| KolQuery.QueryJoinNeverMatches | kol/query.go:197-214 | a query whose Where filter is a Join gives false on another type and an error on its own type |
| KolQuery.EqualsMatchIffIndexed | kol/query.go:146-159 | Equals.match holds exactly when the record's index key sits under the Equals source |
| KolQuery.IndexedRecordFound | kol/index.go:93-107 | a record whose index-tagged field matches an Equals filter holds, among its index keys, one under that filter's source |
| KolQuery.QuerySource | kol/query.go:216-248 | fails exactly when the Where or Except source fails; otherwise pk/type intersected with the Where source, minus the Except source when there is one |
| KolQuery.QueryMatch | kol/query.go:197-214 | false on another type; true only on the type with a Where filter that matches; an error only on the type from the Where or Except filter; true on the type without filters |
| KolQuery.QueryDenotes | kol/query.go:216-248 | each's tree denotes pk/type ∩ Where minus Except |
| KolQuery.QueryMatchMeaning | kol/query.go:197-214 | false on another type or a failing Where, true otherwise; Except never makes it false |
| KolQuery.Decoded | kol/query.go:249-258 | the results that decode as records of the type, each from the stream |
| KolQuery.FirstIsHeadOfAll | kol/query.go:275-322 | First finds the record All would append first, and nothing exactly when All appends nothing |
| KolQuery.Query.Where | kol/query.go:269-272 | replaces the Where filter and nothing else |
| KolQuery.Query.Except | kol/query.go:263-266 | replaces the Except filter and nothing else |
| KolQuery.Query.First | kol/query.go:275-287 | returns FirstSpec and sets the query's type |
| KolQuery.Query.All | kol/query.go:290-322 | returns AllSpec and sets the query's type |
| KolSubscription.AllOpsFollowsEach | kol/subscription.go:24-31 | AllOps is 7 and follows Create, Update and Delete |
| KolSubscription.OpName | kol/subscription.go:12-22 | a name exactly for the three operations; no name where Go panics |
| KolSubscription.OpNameInjective | kol/subscription.go:12-22 | the three names tell the operations apart |
| KolSubscription.HandleSpec | kol/subscription.go:96-132 | unsubscribes exactly when a matcher call fails, the old record first; delivers only a followed operation on a record the matcher accepts, the old one for Delete and the new one otherwise; never delivers when neither side matches |
| KolSubscription.HandleDelivers | kol/subscription.go:96-132 | delivers only a followed operation on a matched record; Update before Delete before Create; a matcher error drops the subscription |
| KolSubscription.HandleIgnores | kol/subscription.go:119-131 | with matcher answers, handle ignores a change exactly when no followed operation applies |
| KolSubscription.SubscriptionOf | kol/subscription.go:154-181 | fails exactly when identify fails; otherwise keeps the name, ops, type and a copy of the Id |
| KolSubscription.IdMatch | kol/subscription.go:166-175 | false on another type; fails exactly on the type when the record has no []byte Id; true exactly on the type when the Id bytes equal the copy |
| KolSubscription.IdMatchMeaning | kol/subscription.go:166-175 | the matcher accepts exactly the records of the type whose Id bytes equal the copy |
| KolSubscription.IdSubscriptionEvents | kol/subscription.go:154-181 | an all-ops id subscription gets Delete, Create and Update of its record and ignores other ids |
| KolSubscription.SubscribeFiles | kol/subscription.go:66-76 | files the subscription under its type and name and changes nothing else |
| KolSubscription.UnsubscribeRemoves | kol/subscription.go:137-143 | removes the name under every type and keeps everything else; it undoes a Subscribe of a new name |
| KolSubscription.Subscriptions.Subscribe | kol/subscription.go:66-76 | the registry becomes Subscribed of the old one |
| KolSubscription.Subscriptions.Unsubscribe | kol/subscription.go:137-143 | the registry becomes Unsubscribed of the old one |
| KolSubscription.Subscriptions.Handle | kol/subscription.go:88-132 | decides as HandleSpec; unsubscribes on a matcher error or a subscriber error |
| KolDb.RandomId | kol/kol.go:65-71 | a new id is 24 bytes |
| KolDb.RandomBytes | kol/kol.go:65-71 | 24 bytes, each the low 8 bits of a draw |
| KolDb.GetSpec | kol/kol.go:230-239 | NotFound exactly when the primary key is absent; otherwise the stored record |
| KolDb.GetRepresented | kol/kol.go:222-239 | get finds exactly the records the store holds |
| KolDb.EmptyRepresents | kol/kol.go:118-130 | the empty store holds no records |
| KolDb.AddRecord | kol/kol.go:249-268 | indexing and saving a new storable record keeps the store holding exactly its records |
| KolDb.DropRecord | kol/kol.go:183-215 | de-indexing and removing a stored record keeps the store holding exactly the others |
| KolDb.DeIndexStored | kol/index.go:159-170 | deIndex of a stored record removes exactly its index keys |
| KolDb.CreateStore | kol/kol.go:256-261 | create indexes the record, then saves it |
| KolDb.UpdateStore | kol/kol.go:274-281 | update removes the old index keys, adds the new ones, then saves |
| KolDb.CreateKeepsRecords | kol/kol.go:249-268 | create succeeds exactly when the index keys derive; failure leaves the store unchanged; success adds the record and get returns it |
| KolDb.UpdateKeepsRecords | kol/kol.go:270-289 | update succeeds exactly when the new index keys derive; failure leaves the store unchanged; success replaces the record and get returns it |
| KolDb.SetKeepsRecords | kol/kol.go:300-326 | a nil Id gets the new id; Set succeeds exactly when the index keys derive, then holds the record and get returns it; failure changes nothing |
| KolDb.DelStored | kol/kol.go:183-215 | Del of a stored record removes its index keys and its primary entry and emits a delete event |
| KolDb.DelKeepsRecords | kol/kol.go:183-215 | Del of an absent record is NotFound with nothing changed; of a stored one it removes it, and a later get is NotFound |
| KolDb.RepeatedKeyBlocksDeIndex | kol/index.go:146-170 | a record deriving one key twice is indexed, but deIndex then fails with "no record" |
| KolDb.KolDb.Get | kol/kol.go:222-228 | identify, then get by the record's type and id |
| KolDb.KolDb.GetIn | kol/kol.go:230-239 | returns GetSpec of the store |
| KolDb.KolDb.Save | kol/kol.go:241-247 | the store becomes SaveSpec of the old one |
| KolDb.KolDb.Create | kol/kol.go:249-268 | the store and error become CreateSpec; an event is emitted on success only |
| KolDb.KolDb.Update | kol/kol.go:270-289 | the store and error become UpdateSpec; an event is emitted on success only |
| KolDb.KolDb.Set | kol/kol.go:300-326 | the store, error, record and events become SetSpec with the id randomBytes makes |
| KolDb.KolDb.Del | kol/kol.go:183-215 | the store, error, record and events become DelSpec |

## Left out

- The set-operation engine (union, intersection, difference, merging, the expression parser) is in the external github.com/zond/setop package. Only the skipper contract and the shaping of its results are modelled. `First`, `All` and `IntendedJoinMatch` take the engine as a function parameter.
- kc/override.go's calls are one-line passthroughs to Kyoto Cabinet. They are modelled by the ordered store: get, set, remove, a cursor with jump, get and step, and "no record" as its only error. IncrDouble, IncrInt, Merge, MatchRegex, MatchPrefix, Cas, Append and Keys are not modelled.
- Store faults other than "no record" are not modelled. The Go code panics or returns them.
- Reflection is replaced by explicit records: a type name and fields with name, value and tag. `identify` keeps its error cases, reached through an `Id` field that is missing or not a byte slice. The checks that the argument refers to a struct have no counterpart in this representation.
- JSON is replaced by an identity encoding: a record is stored as its fields. Decoding a stored record replaces the argument's fields, where `json.Unmarshal` would merge into them.
- CreatedAt and UpdatedAt timestamps (`time.Now`) are not modelled.
- `math/rand` is replaced by a parameter: `Set` takes the 24 draws that `randomBytes` turns into an id.
- Transactions (`Transact`, `BetweenTransactions`) are modelled as all-or-nothing: an operation that fails leaves the store as it was. Locks are not modelled.
- `emit` fans out to goroutines. This is modelled as one emitted change per successful create, update or delete. The subscriber calls are not modelled, nor the `EmitUpdate`, `Created`, `Updated` and `Deleted` helpers.
- `Query.Subscribe` (kol/query.go:180-195) stores a value whose type does not fit the registry. It is a stale revision and is not modelled.
- The base64 Id helpers (kol/kol.go:26-56) are library encoding and are not modelled.
- Go panics become error values: `Operation.String` on another value returns None, and `splitKey[length]` out of range becomes `IndexPanic`. `SetOp` results carry at least one value.
- `Equals.match` with a string filter reads the field with `String`, which never panics: another kind reads as `<T Value>` and a missing field as `<invalid Value>` (`KolQuery.StringOf`). A named type prints its own name there, which the model's `Other` type name stands for. With a filter of another kind, Go's accessor panics on a missing field or a field it cannot read. The model returns NoSuchField or KindMismatch instead.
- KolQuery.FieldBytesAs: with an int filter, Go's `Int` also reads int8, int16 and int32 fields. The model's `Other` fields carry no value, so it reports KindMismatch for them.
- Nothing under subs/ is modelled: WebSocket I/O, JSON messaging, routing, logging, and tokens with SHA-512, gob and base64.
- Go's int is modelled as a 64-bit integer type, and `rand.Int31` draws as integers. `byte(x)` keeps the low 8 bits.
- KolDb.SetKeepsRecords: its conclusion about the stored records requires that a new id is not already taken for the type. A random 24-byte id collides only with vanishing probability, and probability is outside the model.
- KolDb.SetKeepsRecords: the store invariant after success is proved only for records that derive no index key twice. A key derived twice makes a later deIndex fail (`KolDb.RepeatedKeyBlocksDeIndex`).
- KolDb.CreateKeepsRecords: the store invariant after success is proved only for records that derive no index key twice, for the same reason.
- KolDb.UpdateKeepsRecords: the store invariant after success is proved only for records that derive no index key twice, for the same reason.
- KcTruncSkipper.KcSkipper.Probe: its contract ties it to ProbeSpec, whose meaning is proved for the two ways `Skip` calls `skip`: full keys (ProbeFullKeys) and keys cut to the bound's length (ProbeTruncInc, ProbeTruncExc). Other maxLengths, which no caller passes, are not characterised.
- KcTruncSkipper.ProbeTruncExc: it requires a bound without a leading 0x00. With one, the jump to min + 1 goes wrong, as SkipLeadingZeroMisses shows.
- KcSets.ClearAll: the model first lists the pairs `each` yields and then removes their keys. The Go code removes each record inside the `each` callback while the cursor is open. Both remove the same keys, because the record removed is always at or behind the cursor, which has already stepped past it.
- KcFlat.SubClear: the model lists the pairs first and then removes them, where the Go code removes inside the `each` callback. Both remove the same keys, for the same reason.
- KcSets.EachIsChildren: it requires that no record is stored exactly at the prefix. That case is stated separately by KcSets.EachStopsAtPrefixRecord.
- KcFlat.EachIsUnderKey: it requires that no record is stored exactly at key1. That case is stated separately by KcFlat.EachStopsAtKey1Record.
