# iptables blacklister, modelled in Dafny

`iptablesblacklister.py` builds an `ipset` set named `blacklist` and makes
one `iptables` rule drop everything from it. It downloads five public
blocklists and adds each listed IPv4 address or CIDR network to the set,
unless `ipset test` says it is already there. Then it does the same for the
lines of `manual_blacklist.txt`. Before reaching the shell, every token goes
through `clean_ip`, which does one of two things:
- it normalises a dotted-quad address, dropping non-numeric segments and
  leading zeros;
- or it normalises a network in prefix notation, with its host bits cleared.

This project models the core of the script:

- **`clean_ip`** (modules `Text`, `Decimal`, `Address`). The Python string
  operations it relies on are modelled as they behave: `split`, `join`,
  `strip`, `isdigit`, `int` and `str`. This includes the limit on the
  length of a numeral that `int` converts: 4300 digits, leading zeros
  included. That is the default from Python 3.11 on, and in the security
  releases of 3.7 to 3.10. Past it, `int` raises `ValueError`, and
  `clean_ip` returns `None`. The strict parsers of the `ipaddress`
  library are modelled as they behave too: `_parse_octet`,
  `_ip_int_from_string` and `_prefix_from_prefix_string`. The `strict=False` masking is the 32-bit
  AND `packed & netmask`, proved equal to clearing the low 32 − p bits.
- **The feed tokeniser** (module `Lines`). This is the line filter, the
  token `line.split()[0].strip().split(';')[0]`, and the progress total.
- **The two ingestion loops and the top-level order**, in three modules:
  - `Pipeline` holds the reference semantics as pure functions over a
    `State`. The state has the set's members, the trace of shell commands
    and the list of console messages.
  - `Ingestion` and `Script` hold the lemmas about those functions.
  - `Blacklister` holds `class Host`, whose fields the methods update in
    place. Each method is proved to produce exactly the state the
    matching `Pipeline` function computes.

The outside world enters as parameters:
- the body returned for each URL (`fetch: string -> Response`, where a
  `NetworkError` stands for a `RequestException`);
- the contents of the manual file (`ManualFile`);
- the members the set already has when the script starts (`ipset create
  -exist` keeps them).

A whitespace-only feed line passes the filter at line 62. Then
`split()[0]` raises an `IndexError` that nothing catches. The model stops
the run at that line: the remaining feeds, the manual file and the closing
message never happen (`FeedResult.Crashed`, `RunResult.Aborted`). The
other uncaught raises are not modelled (see "## Left out"): `rich`'s
`MarkupError` on a printed token, and the errors of opening or decoding
the manual file (lines 79-80).

`requests.get` does not raise on an HTTP error status. Only a
`RequestException` (line 71) prints the fetch error and skips the feed, so
the body of an HTTP error page is tokenised like any other body.

## Model

| member | source | states |
|---|---|---|
| `Text.JoinSplit` | iptablesblacklister.py:46 | `'.'.join(s.split('.')) == s`: splitting and rejoining on a separator gives back the string |
| `Text.SplitJoin` | iptablesblacklister.py:46 | splitting the join of separator-free pieces gives back the pieces, empty ones included |
| `Text.StripSpec` | iptablesblacklister.py:81 | `strip` keeps a contiguous piece of its input with only whitespace around it and none at its ends; the result is empty exactly when the input is all whitespace |
| `Text.Fields` | iptablesblacklister.py:63 | `split()` yields no field exactly for an all-whitespace string; otherwise the first field is the first run of non-whitespace after the leading whitespace |
| `Decimal.ValueOfString` | iptablesblacklister.py:46 | `int(str(n)) == n` |
| `Decimal.StringOfValue` | iptablesblacklister.py:46 | `str(int(s)) == s` for a digit string without a leading zero |
| `Decimal.LeadingZerosIgnored` | iptablesblacklister.py:46 | leading zeros do not change `int` of a digit string |
| `Address.ParseOctet` | iptablesblacklister.py:47 | an accepted octet is below 256 and spelled canonically, so leading zeros, more than three digits and empty octets are rejected |
| `Address.ParseOctets` | iptablesblacklister.py:47 | the accepted octets are as many as the pieces, each below 256, and their decimal spellings are exactly the pieces |
| `Address.ParseIPv4` | iptablesblacklister.py:47 | an accepted dotted quad has a 32-bit value |
| `Address.ParsePrefix` | iptablesblacklister.py:39 | an accepted prefix is a digit string (leading zeros allowed) that `int` converts, at most 4300 digits long, of value at most 32 |
| `Address.Clean` | iptablesblacklister.py:34-49 | `clean_ip` itself: a token with '/' goes to `CleanNetwork`, any other to `CleanHost`; its properties are in the rows `CleanHostSpec`, `CleanNetworkSpec`, `CleanIdempotent` and `CleanOutputSafe` |
| `Address.CleanHost` | iptablesblacklister.py:42-49 | the branch without '/': the rewrite of the digit segments, then `ip_address`; characterised by `CleanHostSpec` |
| `Address.CleanNetwork` | iptablesblacklister.py:36-41 | the branch with '/': `ip_network(t, strict=False)` and `str`; characterised by `CleanNetworkSpec` and `MaskClearsHostBits` |
| `Address.KeptValues` | iptablesblacklister.py:46 | the values of the all-digit segments, in order (the generator of line 46); `KeptOfDecimals` and `KeptOfDigits` state what it keeps, and `CleanHostSpec` uses it |
| `Address.KeptOfDecimals` | iptablesblacklister.py:46 | the segments spelled from a list of numbers are all kept, and read back as those numbers |
| `Address.KeptOfDigits` | iptablesblacklister.py:46 | when every segment is a digit string, all of them are kept, in order, with their values |
| `Address.Convertible` | iptablesblacklister.py:46-48 | every all-digit segment is short enough for `int`; `CleanHostSpec` and `OverlongOctetExample` state what its failure does |
| `Address.FormatIPv4` | iptablesblacklister.py:47 | `str(ip_address(...))`, the dotted decimal of a 32-bit value; `ParseFormatted` and `FormattedParse` make it the inverse of `ParseIPv4` |
| `Address.Netmask` | iptablesblacklister.py:39 | the netmask `_ip_int_from_prefix` builds for a prefix length; `MaskIsClear` and `MaskClearsHostBits` state what AND with it does |
| `Address.MaskIsClear` | iptablesblacklister.py:39 | `packed & netmask` clears exactly the low 32 − p bits |
| `Address.FormatNetwork` | iptablesblacklister.py:39 | `str(ip_network(...))`, the address, '/' and the prefix; `NetworkRoundTrip` and `NetworkChars` state its properties |
| `Address.NetworkChars` | iptablesblacklister.py:39 | the text of a network holds only digits, '.' and '/' |
| `Address.BitAnd` | iptablesblacklister.py:39 | the bitwise AND is at most either operand |
| `Address.MaskClearsHostBits` | iptablesblacklister.py:39 | ANDing a 32-bit value with the netmask of prefix p clears exactly its low 32 − p bits, and clearing them again changes nothing |
| `Address.ParseFormatted` | iptablesblacklister.py:47 | round trip: the strict parser reads back every formatted 32-bit address |
| `Address.FormattedParse` | iptablesblacklister.py:47 | round trip: the strict parser accepts only the formatted spelling of an address |
| `Address.CleanHostSpec` | iptablesblacklister.py:43-49 | for a token without '/', `clean_ip` succeeds exactly when `int` converts every all-digit segment (none longer than 4300 digits), four such segments remain and each is at most 255; the result is their values joined by dots |
| `Address.CleanNetworkSpec` | iptablesblacklister.py:36-41 | for a token with '/', `clean_ip` succeeds exactly when there is one '/' between a strict dotted quad and a prefix 0..32 of at most 4300 digits; the result is the address with its host bits cleared, then '/' and the prefix |
| `Address.HostRoundTrip` | iptablesblacklister.py:47 | every canonical address is returned unchanged |
| `Address.NetworkRoundTrip` | iptablesblacklister.py:39 | every network spelling is accepted with its prefix kept and its host bits cleared |
| `Address.CleanIdempotent` | iptablesblacklister.py:34-49 | `clean_ip(clean_ip(t)) == clean_ip(t)` whenever the inner call succeeds |
| `Address.CleanOutputSafe` | iptablesblacklister.py:34-49 | what `clean_ip` returns holds only digits, '.' and '/' |
| `Address.LeadingZerosStripped` | iptablesblacklister.py:46-47 | four octets padded with leading zeros are accepted as the address without them when every padded octet is at most 4300 digits long, and rejected otherwise |
| `Address.PaddedPrefix` | iptablesblacklister.py:39 | a prefix length padded with k leading zeros is read as itself while the numeral is at most 4300 digits long, and rejected beyond that |
| `AddressExamples.ShortPadding` | iptablesblacklister.py:46-47 | four octets, each with at most three leading zeros, are always accepted as the address without them |
| `AddressExamples.LeadingZerosExample` | iptablesblacklister.py:46-47 | `"192.168.001.010"` becomes `"192.168.1.10"` |
| `AddressExamples.EmptySegmentExample` | iptablesblacklister.py:46 | `"1..2.3.4"` becomes `"1.2.3.4"`, because the empty segment is dropped |
| `AddressExamples.NonNumericExample` | iptablesblacklister.py:46-47 | `"192.abc.1.1"` is rejected: dropping `abc` leaves three octets |
| `AddressExamples.FiveOctetsExample` | iptablesblacklister.py:47 | `"1.2.3.4.5"` is rejected |
| `AddressExamples.HostBitsExample` | iptablesblacklister.py:39 | `"10.0.0.5/8"` becomes `"10.0.0.0/8"` |
| `AddressExamples.PaddedNetworkExample` | iptablesblacklister.py:39 | `"010.0.0.0/8"` is rejected: the network branch strips no leading zeros |
| `AddressExamples.LongPrefixExample` | iptablesblacklister.py:39 | `"10.0.0.0/33"` is rejected |
| `AddressExamples.OverlongOctetExample` | iptablesblacklister.py:46-48 | `"1.2.3."` followed by 4300 or more zeros and `"4"` is rejected, because `int` raises on the padded octet |
| `AddressExamples.OverlongPrefixExample` | iptablesblacklister.py:39-41 | `"10.0.0.0/"` followed by 4300 or more zeros and `"8"` is rejected, because `int` raises on the padded prefix |
| `Lines.IsDataLine` | iptablesblacklister.py:57 | the filter `line and not line.startswith('#')` shared by lines 57 and 62; `ProgressOvershoot` and `Ingestion.FeedLineFails` state its effect |
| `Lines.ProgressTotal` | iptablesblacklister.py:57 | the announced total, the number of lines that pass the filter; `ProgressOvershoot` and `Blacklister.Host.AddToIpset` state its properties |
| `Lines.FeedToken` | iptablesblacklister.py:63 | tokenising a line raises exactly when the line is all whitespace |
| `Lines.FeedTokenSpec` | iptablesblacklister.py:63 | the token starts at the first non-whitespace character of the line, holds no whitespace and no ';', and ends at the end of the line, at whitespace or at ';' |
| `Lines.ProgressOvershoot` | iptablesblacklister.py:57-70 | the announced total counts only non-empty, non-'#' lines, so it is at most the number of lines, where the progress bar ends; the two are equal exactly when every line is a data line |
| `Pipeline.Execute` | iptablesblacklister.py:11-17 | `run_command`: the command is appended to the trace and only an add changes the set; `Blacklister.Host.RunCommand` is proved to match it |
| `Pipeline.Admitted` | iptablesblacklister.py:64-65 | `cleaned_ip = clean_ip(ip)` followed by `if cleaned_ip` (also lines 84-85); `Ingestion.AdmittedCanonical` states what it admits |
| `Pipeline.FeedLine` | iptablesblacklister.py:62-69 | one pass of the feed loop's body; `Ingestion.FeedLineFails` and `Ingestion.FeedLineSpec` state its properties |
| `Pipeline.ManualLine` | iptablesblacklister.py:81-90 | one pass of the manual loop's body; `Ingestion.ManualRunSpec` and `Ingestion.IngestSpec` state its properties |
| `Pipeline.Setup` | iptablesblacklister.py:21-100 | line 21's creation of the set, then the old rule's deletion and the new rule's insertion; `Script.SetupSpec` states its properties |
| `Pipeline.AddManualIps` | iptablesblacklister.py:77-92 | a path that is not a file leaves the set and the command trace untouched |
| `Pipeline.Ingest` | iptablesblacklister.py:64-69 | the body both loops run on a token (lines 83-90 in the manual loop); its properties are in `IngestSpec`, `IngestReports` and `PresentAddress` |
| `Pipeline.FeedRun` | iptablesblacklister.py:61-70 | the feed loop of `add_to_ipset`; its properties are in the `FeedRun…` rows of `Ingestion` |
| `Pipeline.AddToIpset` | iptablesblacklister.py:52-72 | `add_to_ipset` given the fetch's outcome; its properties are in the `AddToIpset…` rows of `Script` |
| `Pipeline.ManualRun` | iptablesblacklister.py:80-90 | the loop of `add_manual_ips`; its properties are in `ManualRunSpec` |
| `Pipeline.Feeds` | iptablesblacklister.py:111-112 | the loop over the feed URLs; its properties are in the `Feeds…` rows of `Script` |
| `Pipeline.Run` | iptablesblacklister.py:21-117 | the whole script; its properties are in the `Run…` rows of `Script` |
| `Ingestion.IssuedLineSafe` | iptablesblacklister.py:67 | the shell text of a test or add of a canonical address is the fixed `ipset` prefix followed by digits, '.' and '/' only |
| `Ingestion.IngestSpec` | iptablesblacklister.py:64-69 | one token: the set gains exactly its cleaned form if it is valid, and nothing otherwise; an add is issued only for an address not yet in the set; every test and add names a canonical address |
| `Ingestion.IngestRejected` | iptablesblacklister.py:68-69 | an invalid token changes nothing but the console, where its rejection is appended; the same holds in the manual loop (lines 89-90) |
| `Ingestion.IngestReports` | iptablesblacklister.py:83-90 | one token prints only a rejection of an invalid token, or, in the manual loop only, the notice for a valid address |
| `Ingestion.PresentAddress` | iptablesblacklister.py:85-88 | a valid address already in the set is tested and not added; the manual loop reports it and the feed loop stays silent |
| `Ingestion.AdmittedCanonical` | iptablesblacklister.py:64-66 | every admitted token's cleaned form is a canonical address: `clean_ip` returns it unchanged |
| `Ingestion.Fatal` | iptablesblacklister.py:62-63 | a data line on which `split()[0]` raises: one made only of whitespace |
| `Ingestion.FeedLineFails` | iptablesblacklister.py:62-63 | one pass of the feed loop raises exactly on a whitespace-only data line |
| `Ingestion.FeedLineSpec` | iptablesblacklister.py:62-69 | one pass that does not raise only extends the state, and the set gains exactly the line's cleaned address, if it has one |
| `Ingestion.FeedRunStops` | iptablesblacklister.py:61-63 | a feed runs to its end exactly when it has no whitespace-only data line, and otherwise stops at the first one |
| `Ingestion.FeedRunExtends` | iptablesblacklister.py:61-69 | the feed loop only grows the set and only appends to the trace and the messages; every command it issues tests or adds a canonical address, and each address new to the set gets exactly one add while an old one gets none |
| `Ingestion.FeedRunMembers` | iptablesblacklister.py:61-70 | the set gains exactly the cleaned addresses of the lines the feed loop got through (all of them, or those before the line that raised); comment and empty lines add nothing |
| `Ingestion.FeedRunReports` | iptablesblacklister.py:61-69 | the feed loop prints nothing but rejections of invalid tokens |
| `Ingestion.ManualRunSpec` | iptablesblacklister.py:79-90 | the manual loop only grows the set, by exactly the cleaned forms of the stripped, non-blank lines, with no '#' or ';' handling; each new address gets one add; it prints only rejections and notices for canonical addresses |
| `Ingestion.FeedRunCrashPersists` | iptablesblacklister.py:61-63 | once a line has raised, the lines after it are never processed |
| `Script.AddToIpsetRaises` | iptablesblacklister.py:52-72 | `add_to_ipset` raises exactly when the body has a whitespace-only data line; a network failure never raises |
| `Script.AddToIpsetAnnounced` | iptablesblacklister.py:53-72 | `add_to_ipset` first announces its own URL and announces no other |
| `Script.AddToIpsetSpec` | iptablesblacklister.py:52-72 | `add_to_ipset` prints only its announcement, the fetch error or rejections; when it does not raise, the set gains the addresses of the body, and nothing after a network failure |
| `Script.AddManualIpsSpec` | iptablesblacklister.py:76-92 | `add_manual_ips` first prints either the missing-file or the reading message; the set gains exactly the addresses of the file, and nothing when the file is missing |
| `Script.FeedsTrace` | iptablesblacklister.py:111-112 | the loop over the feeds only grows the set, issues only tests and adds of canonical addresses, and prints only feed messages |
| `Script.FeedsOutcome` | iptablesblacklister.py:111-112 | the loop over the feeds completes exactly when no feed raises, and otherwise stops at the first feed that raises |
| `Script.FeedsAnnounced` | iptablesblacklister.py:111-112 | the feeds are announced in list order: all of them, or up to the one that raised |
| `Script.FeedsMembers` | iptablesblacklister.py:111-112 | a completed loop over the feeds adds exactly the addresses of all the bodies |
| `Script.FeedsAbortPersists` | iptablesblacklister.py:111-112 | once a feed has raised, no later feed is read |
| `Script.SetupSpec` | iptablesblacklister.py:21-100 | the first commands are the set's creation, the old rule's deletion and the new rule's insertion, in that order, with their two messages |
| `Script.RunStart` | iptablesblacklister.py:21-115 | every run begins with those three commands and two messages; after them it only tests and adds canonical addresses, and the set never shrinks |
| `Script.RunOutcome` | iptablesblacklister.py:111-115 | the script completes exactly when no feed raises, and otherwise stops inside the first feed that raises |
| `Script.RunAnnounced` | iptablesblacklister.py:103-112 | the five URLs are announced in list order: all of them, or up to the feed that raised |
| `Script.RunCompleted` | iptablesblacklister.py:111-117 | a completed run ends with the closing message, and the set is the old set plus the addresses of every feed and of the manual file |
| `Script.RunManualLast` | iptablesblacklister.py:111-115 | in a completed run, the manual file's first message comes after all five feeds are announced, and no feed is announced after it |
| `Script.RunAborted` | iptablesblacklister.py:111-117 | a run that stops in a feed prints neither a manual-file message nor the closing message |
| `Blacklister.Host.RunCommand` | iptablesblacklister.py:11-17 | running a command appends it to the trace; only `ipset add` changes the set |
| `Blacklister.Host.IsIpInSet` | iptablesblacklister.py:24-31 | runs `ipset test` and returns whether the address was a member |
| `Blacklister.Host.Show` | iptablesblacklister.py:69 | `console.print`: the message is appended to the console's list and nothing else changes |
| `Blacklister.Host.Admit` | iptablesblacklister.py:64-69 | the shared loop body leaves the machine in the state `Pipeline.Ingest` computes |
| `Blacklister.Host.FeedLines` | iptablesblacklister.py:61-70 | the `for line in lines` loop leaves the machine as `Pipeline.FeedRun` computes, reports whether it raised, and advances the progress bar once per line reached |
| `Blacklister.Host.AddToIpset` | iptablesblacklister.py:52-72 | the feed loop leaves the machine as `Pipeline.AddToIpset` computes and reports whether it raised; the progress total is `ProgressTotal` and the bar advances once per line processed |
| `Blacklister.Host.ManualLines` | iptablesblacklister.py:80-90 | the `for line in f` loop leaves the machine as `Pipeline.ManualRun` computes |
| `Blacklister.Host.AddManualIps` | iptablesblacklister.py:76-92 | the manual loop leaves the machine as `Pipeline.AddManualIps` computes |
| `Blacklister.Host.RunFeeds` | iptablesblacklister.py:103-112 | the loop over the five URLs leaves the machine as `Pipeline.Feeds` computes and reports whether every feed finished |
| `Blacklister.Host.Run` | iptablesblacklister.py:94-117 | the whole script leaves the machine as `Pipeline.Run` computes and returns whether it completed |

## Left out

- HTTP fetching (`requests.get`, `response.text`, `splitlines`): each URL's result is a parameter, either a network failure or the body's lines. The text of the exception printed at line 72 is not modelled.
- Shell execution (`subprocess.run`): every command except `ipset test` is assumed to succeed; `ipset test` fails exactly when the string is not a member. The error message of `run_command` (line 17) is not modelled, nor is an `ipset add` that the kernel refuses.
- The kernel's `hash:net` semantics: `ipset test` of an address inside a stored network also succeeds. The model's test is exact membership of the string.
- IPv6 tokens, and netmask or hostmask prefixes such as `/255.0.0.0`: `ipaddress.ip_network` accepts them, but the model's network branch rejects them. The safety lemma therefore covers IPv4 prefix notation only.
- For IPv6 the safety property does not merely go unproved: it fails, by the library's text. `ip_network("fe80::%$(cmd)/64", strict=False)` keeps the scope id when no host bits are set, and `str()` prints it. That text then reaches the `shell=True` commands at lines 28, 67 and 86.
- Python releases without the digit limit of `int` (those before 3.7.14, 3.8.14, 3.9.14 and 3.10.7): there an overlong numeral converts, so they accept some tokens the model rejects.
- Non-ASCII digits: `str.isdigit` accepts some characters that `int` rejects, or maps to ASCII digits. The model's digit test is ASCII-only, so such segments are dropped.
- The manual file's existence check, opening and decoding: the file is a parameter, either missing or its lines. The real `open(file, 'r')` at line 79 and the reading `for line in f` at line 80 can raise and nothing catches it: a `PermissionError` for an unreadable file, or a `UnicodeDecodeError` for bytes the locale's encoding rejects. Such an error comes after the lines read before it were processed, and it stops the script before line 117.
- `rich` rendering (colours, markup, the progress bar's display): only the kind of each message, the value it shows, the announced total and the number of advances are kept.
- `Pipeline.FeedLine` and `Pipeline.ManualLine`: the second uncaught raise is not modelled. Lines 69 and 90 print the rejected raw token through `rich` markup. By the text of `rich`'s `markup.render`, a token holding a closing tag with nothing open to close, such as `[/]` or `[/x]`, raises `MarkupError`. That is neither a `ValueError` nor a `RequestException`, so the script stops there. The model prints the rejection and goes on. `rich` is not part of this model.
- `Ingestion.Fatal`: names only the `IndexError` of line 63, not that `MarkupError`.
- `Ingestion.FeedRunStops`: its "exactly when" counts only whitespace-only lines; a feed line whose token is like `[/]` also stops the real loop.
- `Script.AddToIpsetRaises`: its "exactly when" likewise leaves out the `MarkupError` that line 69 raises on a token like `[/]`.
- `Script.FeedsOutcome`: completes exactly when no feed raises an `IndexError`; the `MarkupError` of line 69 is left out.
- `Script.RunOutcome`: likewise leaves out the `MarkupError` of lines 69 and 90; a manual-file line like `[/]` also stops the real script before the closing message, as does an unreadable or undecodable manual file (lines 79-80).
- `Ingestion.ManualRunSpec`: it says each duplicate notice names a canonical address, not that the address was in the set at that moment. `Ingestion.PresentAddress` states that for a single line.
