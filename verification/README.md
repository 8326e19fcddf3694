# pdns updater — a Dafny model

pdns is a small HTTP service that keeps an authoritative name server's zone
files in step with the addresses its clients report. A request names a host
and an IP address. `Set` then writes an A record (IPv4) or an AAAA record
(IPv6) into the forward zone. It also writes a PTR record, named after the
reversed address under `in-addr.arpa.` or `ip6.arpa.`, into the reverse zone.
Finally it asks the name server to reload. Each zone file is changed by
`UpdateRecordInFile`, which works in these steps:

- It loads the file with a zone-file library.
- It sets value 0 of every entry with the requested domain and type.
- It advances the serial of every SOA entry by one.
- It refuses a zone without an SOA entry.
- It appends a new entry when none matched.
- It writes the file back only when all of that succeeded.

The model is split into these files:

- `wrappers.dfy` holds `Option` and `Result`.
- `strconv.dfy` (`Strconv`) models Go's `strconv.Atoi` and `strconv.Itoa`, and the 64-bit `serial+1`.
- `labels.dfy` (`Labels`) models dotted names and their split into labels.
- `hex.dfy` (`Hex`) models Go's `%x` of a byte array and its reading back.
- `reverse_name.dfy` (`ReverseLookup`) models the IPv4 and IPv6 reverse names.
- `zonefile.dfy` (`Zonefile`) holds the zone-file library's entries and a `Zone` class, whose `SetValue` and `AddEntry` change it in place.
- `upsert.dfy` (`Upserter`) holds the specification of one scan of the zone, with its lemmas.
- `zone_store.dfy` (`ZoneStore`) holds the scan loop and `UpdateRecordInFile`, on a `DiskFile` object.
- `updater.dfy` (`Updater`) holds `Set`, and the agreement of the forward and reverse records.
- `scenarios.dfy` (`Scenarios`) holds concrete cases.

The imperative parts of the source keep their form:

- The scan loop is a `for` loop over a `Zone` object that is updated in place.
- The IPv6 nibble reversal is a down-counting `while` loop.
- `UpdateRecordInFile` and `Set` are methods that change `DiskFile` objects.

Each method is proved against a function:
- The loop is proved against `FirstError`, `HasSoa`, `HasMatch` and `Rewrite`, the parts of `Upsert`.
- The file update is proved against `UpdatedContents`, which is defined through `Upsert`.
- The nibble loop is proved against `Dotted(Reverse(NibbleLabels(..)))`.

The properties are lemmas about those functions.

Some behaviours of the code worth noting:

- `Set` does not check for an empty name; only the HTTP handler does (main.go:48-52). An empty IP is refused in `Set` only because `netip.ParseAddr` fails on it (main.go:71-73).
- The code accepts any number of SOA entries and advances every one of them. Only a zone with none is refused.
- The serial is read with `strconv.Atoi`. Atoi accepts a sign and negative values, and the addition of one wraps at 64 bits.
- A new PTR line is written as `name IN PTR value`. Other types are written as `name type value` (main.go:155-167).

## Model

| member | source | states |
|---|---|---|
| Strconv.Atoi | main.go:142 | Only a string of decimal digits, or '+' or '-' followed by decimal digits, is accepted, and only when the value is in the int64 range. A negative result comes from a leading '-'. |
| Strconv.AtoiPlus | main.go:142 | A '+' before the decimal digits of a number up to MaxInt64 is accepted and gives that number. |
| Strconv.DecimalRoundTrip | main.go:147 | Reading back the decimal text of a natural number gives that number. |
| Strconv.ItoaRoundTrip | main.go:142-147 | Every int64 that Itoa writes, Atoi reads back as the same number. So a serial written by the scan is read back by the next scan. |
| Strconv.Int64Succ | main.go:147 | Go's `serial+1` on a 64-bit int stays in the int64 range. |
| Strconv.Int64SuccWraps | main.go:147 | `serial+1` equals the mathematical successor reduced to the int64 range. It is MinInt64 after MaxInt64. |
| Strconv.AdvanceByWraps | main.go:147 | Adding one N times equals adding N modulo 2^64. Without overflow, it equals plain addition. |
| Labels.SplitDotted | main.go:83-86 | Splitting a name written label by label, each followed by a dot, gives back the labels. None of those labels may contain a dot. |
| ReverseLookup.ReverseNameV4Labels | main.go:94-95 | The IPv4 reverse name splits into the four bytes in reverse order, in decimal, then `in-addr`, `arpa` and an empty final label. |
| ReverseLookup.ReverseNameV4RoundTrip | main.go:94-95 | Parsing the IPv4 reverse name gives back the address. |
| Hex.HexEncode | main.go:80-81 | `%x` of the 16 bytes gives 32 lower-case hex digits. Digits 2i and 2i+1 are the high and low nibble of byte i. |
| Hex.HexRoundTrip | main.go:80-81 | Decoding the hex text gives back the bytes. |
| ReverseLookup.ReverseNibbles | main.go:82-85 | The down-counting loop writes each hex digit, last first, each followed by a dot. |
| ReverseLookup.ReverseNameV6Labels | main.go:80-86 | The IPv6 reverse name has 35 labels. The first 32 are single hex digits, which read backwards give the hex of the address. They are followed by `ip6`, `arpa` and an empty label. |
| ReverseLookup.ReverseNameV6RoundTrip | main.go:80-86 | Parsing the IPv6 reverse name gives back the address. |
| ReverseLookup.ReverseNameRoundTrip | main.go:76-95 | Distinct addresses get distinct reverse names, because parsing the name gives back the address. |
| Zonefile.Zone.SetValue | main.go:130 | Replaces value j of entry i. It fails and changes nothing when the entry has no value j. |
| Zonefile.Zone.AddEntry | main.go:160 | Appends the entry after all existing ones. |
| Upserter.FirstError | main.go:127-149 | The scan stops with no error exactly when every entry passes its checks. |
| Upserter.FirstErrorAt | main.go:127-149 | When every entry before i passes, the scan stops with the error of entry i. |
| Upserter.RewriteChanges | main.go:128-148 | For an entry the scan accepts, only two things change. A matching entry gets the new value 0. An SOA entry, whose serial was readable, gets as value 2 the text Itoa writes for that serial plus one. Domain, type and value count stay the same. |
| Upserter.UpsertFailure | main.go:125-167 | The update fails exactly when one of these holds: a matching entry has no value 0; an SOA entry does not have 7 values or has a serial Atoi refuses; there is no SOA; nothing matched and the new line does not parse. Each error names its cause: a missing SOA, a malformed SOA, an unreadable serial, a match without value 0, or no match and a new line that does not parse. The scan never reports a load failure. |
| Upserter.UpsertRewrites | main.go:127-149 | Order, domains, types and value counts are kept. Every matching entry holds the new value 0. Entries that neither match nor are SOA are unchanged. Only value 0 of a match and value 2 of an SOA change. |
| Upserter.UpsertBumpsEverySoa | main.go:135-150 | On success there is an SOA. Every SOA had a readable serial. Its value 2 is now the text Itoa writes for that serial plus one in 64-bit arithmetic, which reads back as that number. |
| Upserter.UpsertAppendsOnMiss | main.go:153-168 | Exactly one entry is appended, at the end, exactly when no entry matched. It is the library's parse of the new line. |
| Upserter.UpsertEstablishesRecord | main.go:125-168 | After success, at least one entry has the domain and type, and every such entry has the new value 0. |
| Upserter.UpsertTwice | main.go:125-168 | For any type other than SOA (`Set` passes only A, AAAA and PTR), a second identical update also succeeds and appends nothing. It changes no entry except the SOA entries, whose serial advances once more. |
| Upserter.SoaTwiceFails | main.go:139-141 | With type SOA the second update can fail. A zone with one SOA and a request for an SOA record under a new name gets a one-value SOA entry appended, and the next update stops with MalformedSoa. |
| Upserter.SerialAdvancesByN | main.go:142-147 | After N successful updates every SOA serial has advanced N times, wrapping at 64 bits. |
| ZoneStore.DiskFile.ReadAll | main.go:115 | Returns the whole file. |
| ZoneStore.DiskFile.Truncate | main.go:170-175 | Empties the file and leaves the write position at the start. |
| ZoneStore.DiskFile.Write | main.go:176-180 | Writes the data after the current contents. |
| ZoneStore.ScanEntry | main.go:128-148 | One loop turn on entry i ends with that entry's error. Without an error, it replaces entry i by its rewritten form and reports whether the entry matched and whether it is an SOA. |
| ZoneStore.ScanEntries | main.go:125-149 | The loop stops with the first entry's error. Without one, the flags are "an SOA exists" and "an entry matched", and every entry is rewritten in place. |
| ZoneStore.UpdateRecordInFile | main.go:108-183 | On success the file holds the saved zone, followed by a newline exactly when an entry was appended. On any error the file is unchanged and the error is returned. |
| Updater.Set | main.go:67-106 | An address that does not parse changes nothing. Otherwise the forward zone is updated first, with AAAA for IPv6 and A otherwise. A forward failure leaves both zones unchanged. Then the reverse name gets a PTR record whose value is `name.origin.`. A reverse failure leaves the forward update in place. The reload outcome is returned last. |
| Updater.RecordsAgree | main.go:67-99 | After both updates succeed, the forward zone maps the name to the address. The reverse zone has a PTR record whose name parses back to the address and whose value is `name.origin.`. |
| Scenarios.ReverseNameOf192_0_2_10 | main.go:95 | 192.0.2.10 has the reverse name `10.2.0.192.in-addr.arpa.`. |
| Scenarios.ReverseNameEndingIn0001 | main.go:80-86 | An IPv6 address ending in bytes 00 01, such as 2001:db8::1, has a reverse name starting with the labels 1, 0, 0, 0. |
| Scenarios.SerialBumpOf2024010100 | main.go:147 | Serial 2024010100 is written back as 2024010101. |

## Left out

- The HTTP handler, its secret, method and parameter checks, and the flags are not modelled. The origin and the two zone files are parameters of `Set`.
- The mutex around `Set` is not modelled. Calls are modelled one at a time, with no concurrency.
- The `systemctl reload nsd` command is not run. Its outcome is the `reloadOk` parameter of `Set`.
- `netip.ParseAddr` is not modelled. Its outcome is the `parsed` parameter of `Set`, where IPv6 is every address for which `Is6` holds. The text of the error messages is replaced by the `SetError` and `Error` datatypes.
- Opening, reading, truncating, seeking and writing can fail in the source (main.go:109-112, 115-118, 170-178), and those failures are not modelled. A write failure after the truncate would leave a partial file, which the model does not show.
- The two `log.Print` calls (main.go:131, main.go:144) only log and are not modelled.
- The go-zonefile library's parser and printer are function parameters (`Library`). The model covers only their entry-level view of the zone, not comments, spacing or TTLs. `SetValue` is taken to fail exactly when the entry has no value at that index.
- UpdateRecordInFile: the serial properties are stated on the loaded entries, not on the file text, because the library's Load and Save are not modelled. The file after an update is `save` of the updated entries; that Load reads it back is not assumed.
- Upserter.UpsertEstablishesRecord, Upserter.UpsertTwice and Updater.RecordsAgree assume `ParsesAs`. That is, they assume the go-zonefile library reads an appended line back as a record with that domain and type, whose value 0 is the new value. The library's parser is not part of this model, so this is not proved.
- Upserter.UpsertTwice: is stated only for a type other than SOA. With type SOA and no match, the entry appended by the first update is an SOA with one value, so the next update fails with MalformedSoa (main.go:139-141); `Upserter.SoaTwiceFails` shows such a zone. `Set` never passes SOA (main.go:77-96).
- Go's `int` is modelled as 64 bits. On a 32-bit platform Atoi refuses serials of 2^31 and above, and `serial+1` wraps at 2^31-1; the model does not cover that case.
