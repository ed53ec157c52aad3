# Route 53 zone-file renderer, modelled in Dafny

This project models the core of the Route 53 backup job.

- `GenerateZoneFile` turns one Route 53 hosted zone's record sets into DNS master-file text. The format is section 5 of RFC 1035, with the `$TTL` directive of section 4 of RFC 2308.
- `recordSorter` orders the body of that file by (owner name, type).
- `formatRecordValue` formats each record value.
- `Config.Route53AwsAccounts` reads the comma-separated list of accounts to back up from the configuration.

Files:

- `wrappers.dfy`: `Option`, for nil pointers, and `Result`, for Go's `(value, error)` returns.
- `strings.dfy`: the parts of Go's `strings` and `fmt` packages the core uses, with their contracts.
  - `HasSuffix` and `ReplaceAll`, as `RemoveAll`.
  - `Split` and `Join` with a one-character separator.
  - `Fields`, with the full `unicode.IsSpace` set.
  - String `<`, as `StrLess`.
  - `%d`, as `Decimal`.
- `route53.dfy`: the renderer. Its structure:
  - Specification functions describe each part of the output: `FindSoa`, `ApexNs`, `Others`, `AliasComments`, `Preamble` and `BodyLines`.
  - Lemmas state what those parts hold.
  - Imperative methods follow the Go code's loops and string builder: `Partition`, `WriteNsLines`, `WriteBody`, `SortRecords` with `Swap`, and `GenerateZoneFile`. Each is proved against the specification functions.
- `config.dfy`: the `job.route53Backup` configuration section and `Route53AwsAccounts`.

Go semantics pinned down in the model:

- `soaRecord = &rec` keeps the last apex SOA of the input. This follows the per-iteration loop variables of Go 1.22 and later.
- Go's string `<` compares UTF-8 bytes. On Unicode scalar values that is the same order as comparing code points lexicographically, which `StrLess` does.
- `sort.Sort` is not stable. `GenerateZoneFile` therefore promises a body that is sorted by (name, type) and is a permutation of the body record sets, and nothing more. When no two body record sets share a (name, type) key, two lemmas show the body text is unique:
  - `BodyDetermined`: unique for one input.
  - `BodyIndependentOfInputOrder`: unique for any input order.
- The alias comments and the apex NS block keep input order. Only the body is independent of it.
- `strings.Fields` splits at any run of Unicode white space. `FieldGaps` and `FieldsOfWeave` together prove that every string is its fields separated by white-space runs, and that Fields returns exactly those words.
- The seventh whitespace-separated SOA field, index 6, becomes the `$TTL` value. In the order of section 3.3.13 of RFC 1035 that field is MINIMUM, not REFRESH, and the model names it `MinimumField`.
- The builder receives the alias comment lines first. The output order is: comments, the `$TTL` line, the SOA line, a blank line, the NS block, a blank line, the body.
- Both validation errors discard everything written so far. `ZoneError.Message` gives the exact error text of each.

## Model

| member | source | states |
|---|---|---|
| Route53.GenerateZoneFile | core/aws/route53.go:22-100 | An empty record list gives `Success("")`. Otherwise the result is the preamble's error (SOA not found, invalid SOA) exactly when the preamble fails. When it succeeds, the text is the preamble followed by one line per value of the body record sets, taken in some order that is sorted by (name, type) and is a permutation of the non-alias, non-apex-SOA, non-apex-NS record sets. |
| Route53.Partition | core/aws/route53.go:36-52 | The partition loop writes exactly the alias comments, keeps `FindSoa`, and collects `ApexNs` and `Others` in input order. |
| Route53.WriteNsLines | core/aws/route53.go:68-72 | The nested NS loop writes exactly the lines of `NsLines`, each ended by a newline. |
| Route53.WriteBody | core/aws/route53.go:77-97 | The nested body loop writes exactly the lines of `BodyLines` for the sorted array, each ended by a newline. |
| Route53.SortRecords | core/aws/route53.go:75 | After sorting, the array is non-decreasing under `recordSorter.Less` and is a permutation of its old contents. |
| Route53.Swap | core/aws/route53.go:14 | Exchanges the two entries, leaves every other entry alone and keeps the multiset. |
| Route53.LessIrreflexive | core/aws/route53.go:15-20 | No record set precedes itself. |
| Route53.LessTransitive | core/aws/route53.go:15-20 | The (name, type) order is transitive. |
| Route53.LessAsymmetric | core/aws/route53.go:15-20 | Two record sets never precede each other. |
| Route53.LessTotal | core/aws/route53.go:15-20 | Of two record sets one precedes the other, or they share name and type. |
| Route53.NotLessTransitive | core/aws/route53.go:15-20 | "Does not precede" is transitive, so `Less` is a strict weak order as `sort.Sort` requires. |
| Route53.Less | core/aws/route53.go:15-20 | recordSorter.Less: compares names first and types only between equal names. Two record sets with the same (name, type) key never precede each other. A record set precedes one with a different name only if its name is smaller. |
| Route53.SortedPermutationUnique | core/aws/route53.go:75 | Two sorted permutations of the same record sets are equal when no two of them share a (name, type) key. |
| Route53.BodyDetermined | core/aws/route53.go:75-97 | With distinct (name, type) keys, every order the sort may produce gives the same body text. |
| Route53.BodyIndependentOfInputOrder | core/aws/route53.go:36-97 | Two inputs with the same record sets in any order give the same body text when no two body record sets share a (name, type) key. |
| Route53.FormatRecordValue | core/aws/route53.go:102-110 | Every type, TXT included, returns the value unchanged and never an error. |
| Route53.Normalize | core/aws/route53.go:32-34 | The zone name ends in a dot. A name that already ends in one is unchanged. |
| Route53.NormalizeIgnoresTrailingDot | core/aws/route53.go:32-34 | "example.com" and "example.com." normalise to the same zone, so they render identically. Normalising twice changes nothing. |
| Route53.FindSoa | core/aws/route53.go:45-46 | The SOA kept, if any, is one of the input record sets and a non-alias apex SOA. `FindSoaIsLastApexSoa` proves it is the last one. |
| Route53.ApexNs | core/aws/route53.go:47-48 | The apex NS record sets are no more than the input and are input record sets that are non-alias NS at the apex. `ApexNsMultiplicity` gives exact counts. |
| Route53.Others | core/aws/route53.go:49-51 | The body record sets are no more than the input and are input record sets that are neither aliases nor apex SOA or NS. `OthersMultiplicity` gives exact counts. |
| Route53.AliasComments | core/aws/route53.go:37-40 | There are no more comment lines than input record sets. `AliasCommentsExact` says which lines they are. |
| Route53.FindSoaIsLastApexSoa | core/aws/route53.go:45-46 | No SOA is kept exactly when no non-alias record set is an SOA named as the zone. Otherwise the kept SOA is such a record set and no later record set is one. |
| Route53.ApexNsMultiplicity | core/aws/route53.go:47-48 | A record set is in the apex NS block exactly when it is a non-alias NS record set at the apex, as many times as it occurs in the input. |
| Route53.OthersMultiplicity | core/aws/route53.go:49-51 | A record set reaches the body exactly when it is not an alias, not an apex SOA and not an apex NS record set, as many times as it occurs. |
| Route53.AliasCommentsExact | core/aws/route53.go:37-40 | The comment lines are exactly `; ALIAS record skipped (not standard): <name> -> <target>` for the alias record sets. |
| Route53.PartitionCovers | core/aws/route53.go:36-52 | Every record set lands in exactly one place: one comment per alias record set, an apex SOA, the NS block or the body. |
| Route53.AliasNeverData | core/aws/route53.go:37-40 | An alias record set is never the SOA kept, never in the NS block and never in the body, so it yields no data line. |
| Route53.Preamble | core/aws/route53.go:54-73 | Everything before the body. It fails exactly when there is no apex SOA or the SOA value has fewer than 7 fields. On success it ends with a blank line, even when the NS block is empty. |
| Route53.MissingSoaFails | core/aws/route53.go:54-56 | The preamble is the SoaNotFound error for the normalised zone exactly when there is no apex SOA. |
| Route53.TtlIsSoaMinimum | core/aws/route53.go:58-66 | The SOA value may be any fields separated by white-space runs: spaces, tabs, other white space, and runs at either end. With fewer than 7 fields the result is the InvalidSoa error carrying the value. Otherwise the output starts with the alias comments, then `$TTL <seventh field>\n`, then `@\t<soa ttl>\tIN\tSOA\t<value>\n\n`. |
| Route53.DataLineFields | core/aws/route53.go:66-70 | When owner, type and value contain no tab, a data line splits at tabs into owner, TTL, `IN`, type and value, and its TTL field parses back to the record's TTL. A value holding a tab, such as a TXT value, does not split back. |
| Route53.DataLine | core/aws/route53.go:66-95 | The data-line layout `<owner>\t<ttl>\tIN\t<type>\t<value>`, shared by the SOA, NS and body lines. A line starts with the owner and a tab and ends with a tab and the value. Its length is the four variable fields plus six characters: four tabs and `IN`. `DataLineFields` proves it reads back. |
| Route53.TtlDirective | core/aws/route53.go:63-64 | The directive line, without its newline, is `$TTL ` followed by exactly the given value. `TtlIsSoaMinimum` states its place in the output. |
| Route53.Owner | core/aws/route53.go:84-87 | The owner field is `@` for the zone apex and the record name otherwise. |
| Route53.ZoneError.Message | core/aws/route53.go:54-61 | The text of the two errors. `SOA record for zone <zone> not found` holds exactly the zone between its fixed start and end. `invalid SOA record value: <value>` ends with exactly the SOA value. |
| Route53.NsLinesExact | core/aws/route53.go:68-72 | Every value of every apex NS record set appears as `@\t<ttl>\tIN\tNS\t<value>`, and nothing else is in the NS block. |
| Route53.BodyLinesExact | core/aws/route53.go:77-97 | Every value of every body record set appears as a line whose owner is `@` at the apex and the name elsewhere, and nothing else is in the body. |
| Strings.Fields | core/aws/route53.go:59 | The SOA fields are non-empty and free of white space. |
| Strings.FieldGaps | core/aws/route53.go:59 | Every string is its fields separated by white-space gaps, with the inner gaps non-empty. Fields drops nothing but white space. |
| Strings.FieldsOfWeave | core/aws/route53.go:59 | Fields gives back exactly the words of any string made of non-empty, space-free words separated by white-space runs. Leading and trailing white space are allowed. |
| Strings.StrLess | core/aws/route53.go:17-19 | Go's string `<`: a string is never less than itself, and a proper prefix is less than the longer string. |
| Strings.StrLessTransitive | core/aws/route53.go:17-19 | Go's string `<` is transitive. |
| Strings.StrLessTotal | core/aws/route53.go:17-19 | Two distinct strings are ordered one way or the other. |
| Strings.StrLessIrreflexive | core/aws/route53.go:17-19 | No string is less than itself. |
| Strings.Decimal | core/aws/route53.go:66 | `%d` output is non-empty digits, with a leading minus sign exactly for negative numbers and no leading zero except in "0". |
| Strings.HasSuffix | core/aws/route53.go:32 | strings.HasSuffix holds exactly when the string is some prefix followed by the suffix. `Normalize` relies on it. |
| Strings.DecimalRoundTrip | core/aws/route53.go:66 | The `%d` rendering of a TTL parses back to the TTL. |
| Strings.RemoveAll | core/config/config.go:36 | The result has no space, keeps every other character and its count, and is shorter by the number of spaces. |
| Strings.Split | core/config/config.go:37 | There is one more piece than separators, no piece holds the separator, and joining the pieces gives the input back. |
| Strings.SplitJoin | core/config/config.go:37 | Splitting pieces joined by a separator they do not contain gives the pieces back. |
| Config.Route53AwsAccounts | core/config/config.go:35-38 | No account contains a space or a comma. There is one account more than the setting has commas, so an empty setting gives one empty account. Joining the accounts with commas gives the setting with its spaces deleted. |
| Config.AccountsRoundTrip | core/config/config.go:35-38 | A non-empty list of account IDs free of spaces and commas, written comma-separated, is read back exactly. The empty list is written as "" and reads back as one empty account, as `Route53AwsAccounts` states. |
| Config.SpacesIgnored | core/config/config.go:36 | Deleting the spaces from the setting first does not change the accounts read. |

## Left out

- AWS SDK types are reduced to the fields the renderer reads. A `RecordSet` holds the name, type, TTL, values and alias target DNS name. Routing policies, set identifiers and health checks do not take part in rendering.
- Route53.GenerateZoneFile: nil `Name`, `TTL` or `Value` pointers are not modelled, because they make the Go code panic. They become plain fields. The panic on an SOA with no values becomes the precondition `SoaHasValue`.
- Route53.GenerateZoneFile: byte-exact determinism is not claimed when two body record sets share a (name, type) key, because `sort.Sort` is not stable. It is proved for distinct keys in `BodyDetermined`.
- Route53.SortRecords: the pattern-defeating quicksort inside `sort.Sort` is replaced by an insertion sort over `Less` and `Swap` with the same contract: sorted and a permutation. The order it picks among equal keys may differ from Go's.
- Route53.DataLineFields: the read-back holds only when owner, type and value contain no tab. The renderer does not escape a tab inside a value, so a TXT value holding one yields a line with extra tab-separated fields.
- Strings are sequences of Unicode scalar values, while Go strings are byte strings. A name or value holding invalid UTF-8 cannot be represented. For such input Go's `<` compares the raw bytes, and `strings.Fields` decodes each bad byte as U+FFFD; neither case is modelled.
- `recordSorter.Len` is not modelled separately: it is the array's length.
- The error branch after `formatRecordValue` (core/aws/route53.go:80-82) is unreachable, because that function never fails. The model uses the value directly.
- Route53.GenerateZoneFile: the TTL is an unbounded integer. Go's `int64` range is not modelled; `%d` prints either the same way.
- Error values are the `ZoneError` datatype rather than Go `error` values. `ZoneError.Message` gives their text.
- Only the `job.route53Backup` section of `Config` is modelled. `LoadConfig`, `LoadConfigFromJsonFile`, `LocationSpecToType` and the other fields are environment and JSON decoding through libraries that are not part of this model.
- The Route 53 backup handler, the AWS STS, Route 53 and S3 wrappers, compression, scheduling and HTTP wiring are left out. They are concurrency, I/O and SDK calls with no logic of their own to verify.
