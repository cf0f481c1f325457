# hna-list-rs, modelled in Dafny

hna-list-rs prints the networks that an OLSR mesh announces through HNA
(Host and Network Association) messages. Each announced network is shown
with the gateway that announces it, the remaining validity of the
announcement and the gateway's hostname. The program takes the list of
HNA entries that the OLSR daemon's JSON plugin returns and keeps one
record per destination address in an ordered map. It then reads the
hosts file written by the daemon's name service into a second ordered
map from address to hostname. It copies each gateway's hostname into the
route records and prints a fixed-width table in ascending order of
destination address.

This project models that in-memory core in `src/main.rs`:

- `wrappers.dfy`: `Option` and `Result`.
- `decimal.dfy`: the decimal form of unsigned integers, as `Display`
  prints them and as the address parser reads them.
- `text.dfy`: `split_whitespace` (Unicode White_Space), `str::lines`,
  splitting at one character, and the `{:<N}` left-aligned padding.
- `ip.dfy`: IPv4 addresses. Covers their ordering (the `Ord` that orders
  the map's keys), the ascending walk of a map's keys, and the dotted-quad
  `Display` and parser, proved to be inverse to each other. Also the texts
  the parser accepts as IPv6 addresses, which a hosts file may hold.
- `hna.dfy`: the JSON entry, `CidrAddr` with its `Display`, `HNAData`, and
  the route table with its insert loop (`read_hna_to_tree`).
- `hosts.dfy`: the per-line rules and the hostname table's loader
  (`read_hosts_to_tree`).
- `merge.dfy`: the loop in `main` that copies hostnames into the route
  records.
- `report.dfy`: the two header lines and the rows, with `ttl / 1000` as
  the validity in seconds.
- `program.dfy`: the whole run of `main`, given the decoded entry list and
  the hosts file's text, with end-to-end properties.

Each loop that updates a map in the source is a method of a class whose
`entries` field is that map. Each such method is proved against a
function on values:

| method | function |
|---|---|
| `HnaTree.InsertRecords` | `InsertAll` |
| `NameTree.LoadHosts` | `LoadLines` |
| `MergeHostNames` | `Merged` |
| `PrintReport` | `ReportLines` |

The properties the program relies on are proved as lemmas about those
functions.

A hosts line whose address does not parse stops the program: the code
calls `unwrap` on that parse and aborts. In the model, the
loader stops with `Err(token)` and nothing is printed.

## Model

| member | source | states |
|---|---|---|
| Decimal.Show | src/main.rs:42 | `Display` of an unsigned integer in decimal; its properties are the four lemmas below. |
| Decimal.ValueOfShow | src/main.rs:42 | The decimal text of a number is canonical (digits only, no leading zero) and reads back as the same number. |
| Decimal.ShowOfValue | src/main.rs:92 | A canonical digit string is exactly the decimal text of its value, so the address parser accepts only printed forms. |
| Decimal.ShowInjective | src/main.rs:42 | Distinct numbers have distinct decimal texts. |
| Decimal.ShowLength | src/main.rs:140 | A number below 10^k takes between 1 and k digits. |
| Text.Tokens | src/main.rs:80 | `split_whitespace`: the maximal runs of non-whitespace characters, in order; its properties are the Text lemmas below. |
| Text.Lines | src/main.rs:77 | `str::lines`: the pieces ended by '\n', with a '\r' before the '\n' removed; no piece holds '\n'. |
| Text.PadRight | src/main.rs:134-135 | `{:<N}`: the text, then spaces up to width N, never truncated; the result has the larger of the two lengths. |
| Text.TokensAreWords | src/main.rs:80 | Every piece `split_whitespace` returns is non-empty and contains no whitespace. |
| Text.TokensOfBlank | src/main.rs:80-85 | A blank or whitespace-only line yields no pieces. |
| Text.TokensSplit | src/main.rs:80 | A non-empty whitespace gap splits the pieces of the text into the pieces before it and the pieces after it. |
| Text.LinesOfUnlines | src/main.rs:77 | `lines` applied to lines each ending in a newline gives those lines back. This holds when no line contains '\n' or ends in '\r'. |
| Text.SplitOfJoin | src/main.rs:42 | Joining parts that do not contain the separator, then splitting at it, gives the parts back. |
| Text.PadRightSplit | src/main.rs:134 | `{:<N}` keeps the text and fills with spaces up to width N. |
| Text.TokensOfCells | src/main.rs:134-142 | Splitting padded columns, separated by one space, at whitespace gives the non-empty column texts in order. |
| Ip.Below | src/main.rs:114-115 | The `Ord` of IPv4 addresses that orders the maps' keys: octets compared left to right. |
| Ip.Ascending | src/main.rs:121 | The order in which `BTreeMap` walks its keys; characterised by AscendingSpec and AscendingIsUnique. |
| Ip.BelowIsNumericOrder | src/main.rs:55 | The address order (octet by octet) is the order of the 32-bit values. |
| Ip.BelowIsStrictTotalOrder | src/main.rs:114-115 | The key order of the maps is irreflexive, transitive and total. |
| Ip.AscendingSpec | src/main.rs:121 | The walk over a map's keys is strictly ascending and visits each key exactly once. |
| Ip.AscendingIsUnique | src/main.rs:133 | Any strictly ascending listing of the keys is that walk. |
| Ip.Format | src/main.rs:137 | A printed IPv4 address is 7 to 15 characters long. |
| Ip.Parse | src/main.rs:92 | `parse::<IpAddr>()` for IPv4 text: four '.'-separated decimal octets below 256 without leading zeros; its inverse is Format. |
| Ip.IsIpv6Text | src/main.rs:92 | The texts `parse::<IpAddr>()` accepts as IPv6: eight hex groups, or a single "::" standing for at least one zero group, with an optional IPv4 address in place of the last two groups. |
| Ip.Ipv6IsNotIpv4 | src/main.rs:92 | No text is both IPv6 and IPv4, so a hosts token parses to at most one kind of address. |
| Ip.Ipv4MappedIsIpv6 | src/main.rs:92 | Every IPv4 address written as "::ffff:a.b.c.d" is IPv6 text. |
| Ip.ParseOfFormat | src/main.rs:92 | Parsing the printed form of an address gives that address back. |
| Ip.FormatOfParse | src/main.rs:92 | Every text the parser accepts is the printed form of the address it returns. |
| Ip.FormatInjective | src/main.rs:137 | Distinct addresses print differently. |
| Hna.CidrText | src/main.rs:40-44 | `address/prefix` text is 9 to 19 characters long. |
| Hna.CidrTextIsWord | src/main.rs:40-44 | `address/prefix` text contains no whitespace, so it stays one column. |
| Hna.CidrTextInjective | src/main.rs:40-44 | Distinct networks print differently. |
| Hna.FromRecord | src/main.rs:61-69 | The record stored for one list entry: its gateway, its destination with the prefix length, its validity, and an empty hostname. |
| Hna.InsertAll | src/main.rs:58-71 | Inserting the entries in list order, each under its destination; its properties are the InsertAll lemmas below. |
| Hna.HnaTree.constructor | src/main.rs:114 | The route table starts empty. |
| Hna.HnaTree.InsertRecords | src/main.rs:58-71 | The insert loop leaves the table equal to inserting the entries in list order, each under its destination. |
| Hna.InsertAllKeys | src/main.rs:58-71 | After the inserts, the keys are the old keys plus the destinations. |
| Hna.InsertAllLastWins | src/main.rs:59-70 | Under a destination sits the record of the last entry naming it: that entry's gateway, network, prefix length and validity, with an empty hostname. |
| Hna.InsertAllKeepsOthers | src/main.rs:58-71 | Keys that no entry names keep their records, and no other key appears. |
| Hna.InsertAllKeyedByNetwork | src/main.rs:60-64 | Every record stays stored under its own network address. |
| Hosts.ReadLine | src/main.rs:80-95 | What one line does: skipped with fewer than two tokens or a '#' comment, otherwise an IPv4 binding, an IPv6 entry, or the rejected address token. |
| Hosts.LoadLines | src/main.rs:77-96 | The lines read in order, each binding overwriting earlier ones, stopping at the first rejected address. |
| Hosts.BlankLineSkipped | src/main.rs:82-85 | A blank line adds nothing. |
| Hosts.SingleTokenLineSkipped | src/main.rs:82-85 | A line with only one token adds nothing, whatever the token is. |
| Hosts.CommentLineSkipped | src/main.rs:87-90 | A line whose first token starts with '#' adds nothing. |
| Hosts.EntryLineBinds | src/main.rs:92-95 | `<address> <name> [more]` binds that address to that name, with any leading blanks and any gap widths. |
| Hosts.Ipv6LineKept | src/main.rs:92-95 | A line whose first token is IPv6 text is kept as an IPv6 entry for its second token; it is not an error. |
| Hosts.MalformedAddressRejected | src/main.rs:92 | A two-token line whose first token is not a comment, not an IPv4 address and not an IPv6 address fails on that token. |
| Hosts.BindReadsFirstTwoTokens | src/main.rs:80-95 | A line binds only the address printed as its first token, to its second token. |
| Hosts.LoadErrorPersists | src/main.rs:92 | Once a line has failed, the lines after it change nothing. |
| Hosts.LoadSucceeds | src/main.rs:79-96 | With no rejected address, loading succeeds. |
| Hosts.LoadFailsAtFirstBadLine | src/main.rs:92 | Loading fails with the token of the first line whose address is rejected. |
| Hosts.SkippedLineIgnored | src/main.rs:82-95 | Inserting a skipped line or an IPv6 entry anywhere does not change the table of IPv4 addresses. |
| Hosts.LoadKeys | src/main.rs:95 | After a successful load, the keys are the old keys plus the addresses the lines bind. |
| Hosts.LoadKeepsOthers | src/main.rs:95 | Addresses that no line binds keep their names. |
| Hosts.LoadLastWins | src/main.rs:95 | An address maps to the name on the last line that binds it. |
| Hosts.BoundNameIsToken | src/main.rs:93 | A bound name is one non-empty token without whitespace. |
| Hosts.LoadedNamesAreTokens | src/main.rs:93-95 | Every stored name is one non-empty token without whitespace. |
| Hosts.NameTree.constructor | src/main.rs:115 | The hostname table starts empty. |
| Hosts.NameTree.LoadHosts | src/main.rs:76-97 | The loop either reports the token the specification function fails on, with the table holding the lines before the rejected one, or leaves the table equal to reading the lines in order. |
| Merge.WithHostName | src/main.rs:122-126 | One record after the merge: the gateway's hostname when the hostname table has the gateway, otherwise unchanged. |
| Merge.Merged | src/main.rs:121-127 | Every record of the route table merged; its properties are the Merge lemmas below. |
| Merge.MergedFields | src/main.rs:121-127 | The merge keeps every key, gateway, network and validity. It sets the hostname exactly where the gateway has a name. |
| Merge.MergeKeepsKeyedByNetwork | src/main.rs:121-127 | The merge keeps every record under its own network address. |
| Merge.MergeHostNames | src/main.rs:121-127 | The loop leaves the route table equal to the merge of the old table with the hostname table. |
| Report.RowCells | src/main.rs:134-142 | The four arguments of one row's format string with their widths: network, gateway, seconds and hostname. |
| Report.Row | src/main.rs:134-142 | One printed row: the padded cells separated by single spaces; its layout is RowLayout and its columns RowColumns. |
| Report.ReportLines | src/main.rs:130-143 | The two header lines, then the row of each record in ascending key order. |
| Report.ValiditySeconds | src/main.rs:140 | The printed validity s is the whole number of seconds: s*1000 <= ttl < (s+1)*1000. |
| Report.RowsAt | src/main.rs:133-143 | Row i of the walk is the row of the record under the i-th key. |
| Report.ReportLength | src/main.rs:130-143 | The report has the two header lines and one row per key. |
| Report.ReportIsAscendingWalk | src/main.rs:133-143 | The report is the rows in any strictly ascending listing of the keys. |
| Report.ReportRowRank | src/main.rs:133-143 | Row j belongs to the key that has exactly j smaller keys. |
| Report.ReportRowOf | src/main.rs:133-143 | The record under key k is on the row whose rank is the number of keys smaller than k. |
| Report.RowColumns | src/main.rs:134-142 | Splitting a row at whitespace gives the network, the gateway, the seconds and the hostname (when it is not empty). |
| Report.RowLayout | src/main.rs:134 | The columns start at offsets 0, 23, 44 and 60, each padded to width 22, 20, 15 or 25. |
| Report.PrintReport | src/main.rs:130-143 | The print loop produces the header lines and then the rows in ascending key order. |
| Program.Run | src/main.rs:113-143 | The run either fails with the first rejected hosts token, or prints the report of the merged table. |
| Program.JoinedKeys | src/main.rs:117-127 | The printed table has exactly one key per distinct destination. |
| Program.ReportRowCount | src/main.rs:117-143 | The output has 2 lines plus one per distinct destination. |
| Program.JoinedRecord | src/main.rs:58-71 | A destination's record comes from the last entry naming it. Its hostname is the gateway's name, or empty when the gateway has none. |
| Program.ReportShowsRecord | src/main.rs:117-143 | That record's row sits at its rank among the destinations. Its columns are the network, the gateway, the seconds and the name. |
| Program.Ipv6OnlyHosts | src/main.rs:76-97 | A hosts file whose one line is an IPv6 address and a name loads without error and binds no IPv4 address. |
| Program.LoopbackHosts | src/main.rs:76-97 | The hosts file "::1 localhost" loads without error, so the report is printed. |
| Program.NodeAlphaExample | src/main.rs:117-143 | The route 192.168.1.0/24 via 10.0.0.1 for 3000 ms, with the hosts line `10.0.0.1 node-alpha`, prints one row with the columns `192.168.1.0/24`, `10.0.0.1`, `3` and `node-alpha`. |

## Left out

- Fetching the JSON (src/main.rs:101-106) is left out: the `sh -c "echo /hna | nc 127.0.0.1 9090"` subprocess and its UTF-8 decode are I/O. The run takes the decoded entry list as a parameter.
- Reading `/tmp/hosts/olsr` (src/main.rs:112) is I/O. The run takes the file's text as a parameter.
- JSON decoding with serde (src/main.rs:56) is left out. The model starts from the decoded `hna` list. The other top-level fields (process id, times, checksum) are never read, so they are not modelled.
- Only IPv4 addresses are modelled as values. The route list's addresses are taken to be IPv4; the IPv6 route table is commented out in the source.
- A hosts line with an IPv6 address is recognised (`Ip.IsIpv6Text`) and loads without error, as in the source. Its mapping is not kept: the model's hostname table holds IPv4 keys only. The source stores it under an IPv6 key, which no IPv4 gateway looks up, so the printed report is the same.
- The panics of `unwrap` are modelled as an `Err` result carrying the offending token. After a failed `Hosts.NameTree.LoadHosts` the table holds the lines before the rejected one; in the source the process has ended by then.
- `Program.Run` returns the printed lines instead of writing them. Each line stands for one `println!`, i.e. the line followed by '\n'.
- `split[1].parse::<String>()` (src/main.rs:93) cannot fail, so the name is the second token as it is.
- The header label "Validity Time" starts at column 41, while the values below it start at column 44. Both header lines are modelled verbatim.
