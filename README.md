# P.A.C.K.E.R. unpacker and Cloudflare scraper, modelled in Dafny

This project models two modules of a Kodi add-on's helper library.

**`jsunpack`** undoes Dean Edwards' P.A.C.K.E.R. JavaScript packer. It works in four steps:

- `detect` looks for the packer's `eval(function(p,a,c,k,e,r|d)` signature once spaces are deleted.
- `_filterargs` pulls the four packer arguments out of the call: the payload, the radix, the count and the `|`-separated symbol table.
- `unpack` checks the count against the table and builds an `Unbaser` functor for the radix. It then replaces every word of the payload (`\b\w+\b`) by its symbol-table entry.
- `_replacestrings` finds a `var _name=["…","…"];` string table, inlines each `_name[i]` and cuts the declaration's length off the front.

`Unbaser` decodes bases 2..36 as Python's `int(word, base)` does. Other bases decode through a dictionary built from a class-level `ALPHABET` table, which the constructor extends for bases below 95.

**`cfscrape`** is a `requests.Session` subclass that gets past Cloudflare's "I'm Under Attack" page. It recognises the challenge page, waits, submits the solved challenge and follows the redirect. It also offers helpers that read the Cloudflare cookies.

Files:

- `common.dfy`: `Option` and `Result`.
- `text.dfy`: the Python string operations the code relies on (`find`, `in`, `startswith`, `replace`, `split`, `join`, `count`, decimal `int()`), with their algebra.
- `unbaser.dfy`: the alphabets, the shared `ALPHABET` table (a class, since the constructor writes to it), the `Unbaser` class, and the round trip with base encoding.
- `filterargs.dfy`: the argument regular expression as a relation on match positions. A search function picks the match Python's backtracking engine settles on.
- `replacestrings.dfy`: `_replacestrings`, its declaration search and its inlining loop.
- `jsunpack.dfy`: `detect`, the word tokenisation and substitution, and `unpack`, including the packing round trip.
- `cfscrape.dfy`: the scraper over an abstract transport, `create_scraper`, `get_tokens` and `get_cookie_string`.

The transport is a class that logs every request sent and every pause made. The response to the `n`-th request is an arbitrary function of `n` and the request. The external challenge solver (`cfdecoder`) is an arbitrary function from the challenge response to the submission url.

## Model

| member | source | states |
|---|---|---|
| Text.ContainsMeaning | lib/resources/lib/modules/cfscrape.py:59-60 | the substring test `pat in s` holds exactly when `pat` occurs in `s` at some index |
| Text.SplitOnJoin | lib/resources/lib/modules/jsunpack.py:71 | `split` at a separator undoes joining with it, when no part holds the separator's first character |
| Text.JoinSplitOn | lib/resources/lib/modules/jsunpack.py:71 | joining the pieces of a `split` with the same separator gives the text back |
| Text.SplitOnCharLength | lib/resources/lib/modules/jsunpack.py:71 | splitting at a one-character separator gives one more piece than the separator occurs |
| Text.ReplaceAllIsJoinOfSplit | lib/resources/lib/modules/jsunpack.py:86 | `s.replace(target, repl)` is `repl.join(s.split(target))` |
| Text.ReplaceAllAbsent | lib/resources/lib/modules/jsunpack.py:86 | a text in which the target does not occur is left as it is by `replace` |
| Text.ParseDecimalOfNatToString | lib/resources/lib/modules/jsunpack.py:71 | reading back with `int()` what `%d` wrote gives the number again |
| JsUnpack.DetectExactly | lib/resources/lib/modules/jsunpack.py:33-39 | `detect` holds exactly when the space-free text has the signature `eval(function(p,a,c,k,e,` at some position, followed by `r` or `d` |
| JsUnpack.DetectIgnoresSpaces | lib/resources/lib/modules/jsunpack.py:35 | inserting a space anywhere never changes what `detect` answers |
| JsUnpack.DetectSignature | lib/resources/lib/modules/jsunpack.py:36 | any text that contains the signature with `r` or `d` is detected, whatever surrounds it |
| JsUnpack.StripSpacesMeaning | lib/resources/lib/modules/jsunpack.py:35 | `replace(' ', '')` leaves no space, shortens the text by exactly its number of spaces, and changes nothing in a text without spaces |
| JsUnpack.StripSpacesAppend | lib/resources/lib/modules/jsunpack.py:35 | deleting spaces distributes over concatenation |
| JsUnpack.TokensSpell | lib/resources/lib/modules/jsunpack.py:59 | cutting the payload into the `\b\w+\b` matches and the characters between loses nothing: the pieces spell the payload again |
| JsUnpack.TokensWellTokenized | lib/resources/lib/modules/jsunpack.py:59 | the matches are maximal runs of word characters and never adjacent, and the first piece is a word exactly when the payload starts with a word character |
| JsUnpack.TokensOfSpell | lib/resources/lib/modules/jsunpack.py:59 | conversely, a well-formed piece sequence is exactly what tokenising its spelling gives back |
| JsUnpack.TokensAtOther | lib/resources/lib/modules/jsunpack.py:59 | a non-word character splits the tokenisation into the tokens on either side |
| JsUnpack.TokensOfWord | lib/resources/lib/modules/jsunpack.py:59 | a run of word characters is a single match |
| JsUnpack.SubstitutePiecesAppend | lib/resources/lib/modules/jsunpack.py:59 | substitution over concatenated pieces is the two results written one after the other, the first failure winning |
| JsUnpack.SubstituteAtOther | lib/resources/lib/modules/jsunpack.py:59 | substitution splits at a non-word character, which is copied unchanged |
| JsUnpack.SubstituteWord | lib/resources/lib/modules/jsunpack.py:54-59 | a payload that is one word is replaced by that word's lookup |
| JsUnpack.SubstitutePiecesOutcome | lib/resources/lib/modules/jsunpack.py:54-59 | the substitution succeeds exactly when every word's lookup succeeds; otherwise it raises the failure of some word's lookup |
| JsUnpack.LookupEncoded | lib/resources/lib/modules/jsunpack.py:54-57 | the symbol code for index `i`, written in the radix's alphabet, looks up `symtab[i]`, or the code itself when that entry is empty |
| JsUnpack.SubstituteWords | lib/resources/lib/modules/jsunpack.py:54-59 | the `re.sub` loop with the `lookup` callback computes the substitution: each word through the functor, the empty-entry fallback, the first failure raised |
| JsUnpack.Unpack | lib/resources/lib/modules/jsunpack.py:42-60 | `unpack` returns the unpacking result or its failure; the shared alphabet table receives the constructor's write exactly when `unpack` gets as far as building the functor, and is left as it was otherwise; that write adds an entry only for a radix of 0..1, 37..61 or 63..94, and nothing for 2..36, 62, 95 or a radix above 95 |
| JsUnpack.UnpackNoArgs | lib/resources/lib/modules/jsunpack.py:44 | `unpack` fails for missing arguments exactly when the argument pattern matches nowhere |
| JsUnpack.UnpackRejectsCount | lib/resources/lib/modules/jsunpack.py:46-47 | a packed call whose count is not the number of bar-separated entries is rejected as a malformed symbol table |
| JsUnpack.UnpackRejectsRadix | lib/resources/lib/modules/jsunpack.py:49-52 | a packed call whose count equals the number of table entries and whose radix is above 95 is rejected as an unknown encoding |
| JsUnpack.EncodePiecesWellTokenized | lib/resources/lib/modules/jsunpack.py:59 | replacing the words of a text by their codes in a base up to 62 keeps the words separated, so the packed payload tokenises into the same pieces |
| JsUnpack.SubstituteEncoded | lib/resources/lib/modules/jsunpack.py:54-59 | substituting the encoded pieces through a symbol table that fits them gives back the original text |
| JsUnpack.SubstitutePacked | lib/resources/lib/modules/jsunpack.py:59 | the same, for the spelled-out packed payload |
| JsUnpack.UnpackPackedCall | lib/resources/lib/modules/jsunpack.py:42-60 | packing round trip: unpacking the call a packer writes for a text (codes in any base 2..62, a fitting table) gives back the text after the string-table pass |
| JsUnpack.UnpackPackedPlain | lib/resources/lib/modules/jsunpack.py:42-60 | for a text without a string-table declaration, unpacking its packed call gives back the text itself |
| ArgsFilter.FilterArgsFailsExactly | lib/resources/lib/modules/jsunpack.py:65-66 | `_filterargs` finds arguments exactly when the regular expression matches somewhere, and reports the missing arguments otherwise |
| ArgsFilter.SearchSound | lib/resources/lib/modules/jsunpack.py:65-66 | the match the search returns satisfies every constraint of the pattern |
| ArgsFilter.MatchAtSound | lib/resources/lib/modules/jsunpack.py:65 | from a brace that can open a match, the positions the engine settles on satisfy every constraint of the pattern |
| ArgsFilter.MatchAtFirst | lib/resources/lib/modules/jsunpack.py:65 | from the brace of any match, the engine settles on a match it prefers or equal to it |
| ArgsFilter.SearchFirst | lib/resources/lib/modules/jsunpack.py:65-66 | whenever the pattern matches, the search finds a match, and it is the one the backtracking engine prefers: the leftmost brace, the longest payload, then the shortest radix field and symbol table |
| ArgsFilter.RadixFirst | lib/resources/lib/modules/jsunpack.py:65 | the lazy radix group stops at the first comma after which the rest of the pattern can match |
| ArgsFilter.PayloadFirst | lib/resources/lib/modules/jsunpack.py:65 | the greedy payload group ends at the last `',` after which the rest of the pattern can match |
| ArgsFilter.TailAfterFirst | lib/resources/lib/modules/jsunpack.py:65 | the count digits and the lazy symbol table after the radix are the first that fit |
| ArgsFilter.FilterArgsOfLayout | lib/resources/lib/modules/jsunpack.py:63-73 | for the argument list a packer writes, `_filterargs` returns its payload, the table split at its bars, the radix (36 when its field is not all digits) and the count |
| ArgsFilter.FilterArgsOfPackedCall | lib/resources/lib/modules/jsunpack.py:63-73 | the same, for numeric radix and count written in decimal |
| ArgsFilter.LayoutUnique | lib/resources/lib/modules/jsunpack.py:65 | in a packer's layout the pattern has one match that the engine can settle on |
| ArgsFilter.FilterArgsOfOnlyMatch | lib/resources/lib/modules/jsunpack.py:66-71 | when only one match can be chosen, `_filterargs` returns its four groups |
| StringTable.FindDeclMeaning | lib/resources/lib/modules/jsunpack.py:78 | the declaration search returns a real match of `var *(_\w+)\=\["(.*?)"\];`, finds none exactly when there is none, and returns the leftmost one with the shortest string list |
| StringTable.DeclHereFirst | lib/resources/lib/modules/jsunpack.py:78 | at a given start, the lazy string group stops at the first closing `"];` |
| StringTable.DeclFoundAt | lib/resources/lib/modules/jsunpack.py:78 | a declaration at the head of the text with no `"];` before its own closing is the very match returned |
| StringTable.DeclFromFirst | lib/resources/lib/modules/jsunpack.py:78 | scanning from a position finds the earliest declaration at or after it |
| StringTable.ReplaceStrings | lib/resources/lib/modules/jsunpack.py:76-88 | the loop inlines the strings in order, then drops as many leading characters as the matched declaration had; without a declaration the source is returned |
| StringTable.ReplacedStringsWithoutDecl | lib/resources/lib/modules/jsunpack.py:80-88 | a text without a declaration passes through unchanged |
| StringTable.DeclNameUnquoted | lib/resources/lib/modules/jsunpack.py:78 | the captured name never contains a double quote |
| StringTable.InlinedRemovesRefs | lib/resources/lib/modules/jsunpack.py:84-86 | when no quoted value spells a reference, no `_name[i]` is left after the loop |
| StringTable.FindHeadDecl | lib/resources/lib/modules/jsunpack.py:78-83 | a declaration at the head of the text is the one found, with its name, its strings and its length |
| StringTable.HeadFound | lib/resources/lib/modules/jsunpack.py:78-83 | a head declaration laid out as `var`, blanks, `_name`, `=["`, a string list without `"` or `]` and `"];` is the match found, with that name and the list split at `","` |
| StringTable.ReplacedStringsHeadDecl | lib/resources/lib/modules/jsunpack.py:76-88 | for a text that starts with a string table, the result is the rest of the text with every reference inlined |
| StringTable.ReplacedStringsHeadDeclComplete | lib/resources/lib/modules/jsunpack.py:76-88 | and in that result no reference to the table remains, given that no value spells one |
| Unbasing.AlphabetCodes | lib/resources/lib/modules/jsunpack.py:94-98 | the 62-character alphabet is the digits, then the lower-case then the upper-case letters; the 95-character one is the printable ASCII range from the space |
| Unbasing.AlphabetsDistinct | lib/resources/lib/modules/jsunpack.py:94-98 | both built-in alphabets have the stated length and no repeated character |
| Unbasing.CanonicalAlphabet | lib/resources/lib/modules/jsunpack.py:107-110 | the alphabet for a base up to 95 has exactly `base` distinct characters and agrees with the built-in ones at 62 and 95 |
| Unbasing.InstallKeepsTableCanonical | lib/resources/lib/modules/jsunpack.py:104-115 | the constructor's writes to `ALPHABET` keep every entry the canonical alphabet of its base, touch no other base, and, for a base outside 2..36, leave an entry for the base exactly when it is at most 95 |
| Unbasing.AlphabetTable.constructor | lib/resources/lib/modules/jsunpack.py:94-98 | the table starts with exactly the entries 62 and 95 |
| Unbasing.IndexMap | lib/resources/lib/modules/jsunpack.py:113 | the dictionary has a key for each character of the alphabet, and maps it to a position where it occurs |
| Unbasing.IndexMapDecodes | lib/resources/lib/modules/jsunpack.py:113 | for an alphabet without repeats, the dictionary maps each character to its index |
| Unbasing.BuiltinDigitsMeaning | lib/resources/lib/modules/jsunpack.py:104-105 | `int(word, base)` accepts digits and letters below the base in either case, with the same value for a letter's two cases, and agrees with the canonical alphabet |
| Unbasing.ValueAppend | lib/resources/lib/modules/jsunpack.py:122-127 | appending a digit multiplies the value by the base and adds the digit |
| Unbasing.ValueBound | lib/resources/lib/modules/jsunpack.py:122-127 | a word of `n` digits, each below the base, is worth less than base to the `n` |
| Unbasing.LeadingZeros | lib/resources/lib/modules/jsunpack.py:122-127 | leading zero digits do not change the value |
| Unbasing.DictionaryUnbaseMeaning | lib/resources/lib/modules/jsunpack.py:112-117 | for a dictionary base the functor succeeds exactly on words over the base's alphabet, and reads each character as its index there |
| Unbasing.UnbaseBound | lib/resources/lib/modules/jsunpack.py:119-127 | a decoded word of `n` characters is below the base to the `n` |
| Unbasing.UnbaseLeadingZero | lib/resources/lib/modules/jsunpack.py:104-127 | a leading zero digit changes nothing; the empty word decodes to 0 through the dictionary but is rejected by `int()` |
| Unbasing.DecodeEncode | lib/resources/lib/modules/jsunpack.py:122-127 | decoding a number written in an alphabet gives the number back |
| Unbasing.UnbaseEncode | lib/resources/lib/modules/jsunpack.py:100-127 | for every base 2..95 the functor inverts base encoding |
| Unbasing.Unbaser.Call | lib/resources/lib/modules/jsunpack.py:119-120 | `__call__` decodes with the conversion the constructor chose, `int()` or the dictionary |
| Unbasing.Unbaser.DictUnbase | lib/resources/lib/modules/jsunpack.py:122-127 | the right-to-left loop summing `base ** index * digit` computes the word's value, and fails on a character missing from the dictionary |
| Unbasing.NewUnbaser | lib/resources/lib/modules/jsunpack.py:100-117 | `__init__` makes the constructor's write to the shared table (a new entry for bases 0..1, 37..61 and 63..94 and none otherwise) and yields a functor for the base, raising `TypeError` exactly for a base above 95 |
| CloudflareScrape.ChallengeExactly | lib/resources/lib/modules/cfscrape.py:55-61 | a challenge is exactly a 503 whose `Server` header is present and starts with `cloudflare`, and whose body contains both `jschl_vc` and `jschl_answer` |
| CloudflareScrape.SubmissionKwargsMeaning | lib/resources/lib/modules/cfscrape.py:81-84 | the submission arguments keep every caller argument and add `params`, `headers` and `allow_redirects=False`; the headers gain `Referer` and keep every other entry; headers that are not a dictionary are the only failure |
| CloudflareScrape.BuildSubmissionKwargs | lib/resources/lib/modules/cfscrape.py:81-91 | the `deepcopy`, `setdefault` and assignment steps compute exactly those arguments, leaving the caller's untouched |
| CloudflareScrape.RequestPassesThrough | lib/resources/lib/modules/cfscrape.py:64-72 | a first response that is not a challenge is returned as it is, after one request and no pause |
| CloudflareScrape.RequestPausesOnlyForChallenges | lib/resources/lib/modules/cfscrape.py:67-75 | `request` pauses exactly when its first response is a challenge and fuel remains |
| CloudflareScrape.RequestNeverReturnsChallenge | lib/resources/lib/modules/cfscrape.py:67-72 | `request` never returns a challenge page |
| CloudflareScrape.SolveReturnsNoChallenge | lib/resources/lib/modules/cfscrape.py:74-93 | what `solve_cf_challenge` returns is never a challenge page, since it is the answer of a nested `request` |
| CloudflareScrape.RequestNeverRejectsAnswer | lib/resources/lib/modules/cfscrape.py:67-70 | the answer-not-accepted `ValueError` is never raised, at any nesting depth: a challenge that comes back after solving is solved again by the nested `request` |
| CloudflareScrape.ChallengeForeverRunsOutOfFuel | lib/resources/lib/modules/cfscrape.py:63-93 | against a server that always answers with a challenge, `request` solves again once per unit of fuel, with one pause and one more request per round (`fuel` pauses and `fuel + 1` requests in all), and then fails for lack of fuel |
| CloudflareScrape.SolveRejectsHeaders | lib/resources/lib/modules/cfscrape.py:81-84 | caller headers that are not a dictionary make `solve_cf_challenge` fail after its pause, before sending anything |
| CloudflareScrape.RequestSendsCallFirst | lib/resources/lib/modules/cfscrape.py:64 | every request starts by sending its own method, url and arguments |
| CloudflareScrape.RequestSleepsFive | lib/resources/lib/modules/cfscrape.py:75 | every pause is the literal five seconds, never the scraper's `delay`, however deeply challenges nest |
| CloudflareScrape.SolveSleepsFive | lib/resources/lib/modules/cfscrape.py:74-93 | the same for `solve_cf_challenge` |
| CloudflareScrape.SubmitSleepsFive | lib/resources/lib/modules/cfscrape.py:89-93 | the same for the submission and its redirect |
| CloudflareScrape.SolveRequests | lib/resources/lib/modules/cfscrape.py:74-93 | `solve_cf_challenge` pauses first, then submits the solver's url with the challenge's method and the submission arguments; after a `Location`, it requests that url with the same method and the caller's original arguments |
| CloudflareScrape.Transport.Send | lib/resources/lib/modules/cfscrape.py:64 | a request returns the transport's reply and is appended to the log |
| CloudflareScrape.Transport.Sleep | lib/resources/lib/modules/cfscrape.py:75 | a pause is appended to the pause log |
| CloudflareScrape.Scraper.Request | lib/resources/lib/modules/cfscrape.py:63-72 | the method's outcome, the requests it sends and the pauses it makes are those of the `request` trace |
| CloudflareScrape.Scraper.SolveChallenge | lib/resources/lib/modules/cfscrape.py:74-93 | the same for `solve_cf_challenge` |
| CloudflareScrape.Scraper.Submit | lib/resources/lib/modules/cfscrape.py:89-93 | the same for the submission and the redirect it answers with |
| CloudflareScrape.AgentHeadersMeaning | lib/resources/lib/modules/cfscrape.py:51-53 | `__init__` changes only the User-Agent, and only when it contains `requests`; it then becomes one of the built-in agents |
| CloudflareScrape.Scraper.constructor | lib/resources/lib/modules/cfscrape.py:47-53 | `delay` is 5 unless given, and the session's headers go through the User-Agent rule |
| CloudflareScrape.CopyTruthyMeaning | lib/resources/lib/modules/cfscrape.py:102-107 | a listed attribute is copied exactly when it is truthy on the other session; every other attribute keeps its value, present or absent |
| CloudflareScrape.CreateScraper | lib/resources/lib/modules/cfscrape.py:96-109 | `create_scraper` builds a scraper and, given another session, applies the copying loop over the eight listed attributes |
| CloudflareScrape.ListDomains | lib/resources/lib/modules/cfscrape.py:130 | `list_domains()` lists each cookie domain of the jar once |
| CloudflareScrape.ListDomainsOrder | lib/resources/lib/modules/cfscrape.py:130 | `list_domains()` lists the domains in the order of their first cookies: for each earlier domain, some cookie of it comes before every cookie of a later one |
| CloudflareScrape.FirstCookieDomainMeaning | lib/resources/lib/modules/cfscrape.py:130-135 | the loop stops at the first domain that starts with `.` and lies within `"." + host`, and finds none exactly when none does |
| CloudflareScrape.CookieValueMeaning | lib/resources/lib/modules/cfscrape.py:138-139 | a cookie lookup returns `""` when no jar cookie has that name and domain, and otherwise the value of the first one that has |
| CloudflareScrape.GetTokens | lib/resources/lib/modules/cfscrape.py:117-142 | `get_tokens` returns the two Cloudflare cookies of the first fitting domain with the User-Agent, overridden by a non-empty `user_agent`, or raises when no domain fits |
| CloudflareScrape.TwoTokensString | lib/resources/lib/modules/cfscrape.py:150 | the header for the two Cloudflare tokens is `__cfduid=<uid>; cf_clearance=<clearance>` |
| CloudflareScrape.CookieStringSplits | lib/resources/lib/modules/cfscrape.py:150 | when no name or value contains `;`, splitting the Cookie header at `"; "` gives back each `name=value` |
| CloudflareScrape.CookieStringFails | lib/resources/lib/modules/cfscrape.py:144-150 | `get_cookie_string` fails exactly when `get_tokens` finds no Cloudflare domain, with the same error |
| CloudflareScrape.CookieStringOfTokens | lib/resources/lib/modules/cfscrape.py:137-150 | otherwise the header is `__cfduid=…; cf_clearance=…` for the domain found, returned with the agent |

## Left out

- I/O, `logging`, the `print` in the `__main__` block and the sample scripts it holds: not modelled.
- The constructor's Python 2 behaviour for bases below 2 beyond what the slice gives (`ALPHABET[0] == ""`, `ALPHABET[1] == "0"`): the model follows the slice; negative bases cannot come out of `_filterargs`.
- `int()`'s tolerance of surrounding whitespace, a sign, and a `0x`/`0o`/`0b` prefix for a matching base: the model reads a word as a plain numeral. The `\w+` words `unpack` passes can only hit the prefix case.
- `_filterargs`' `except ValueError`: it cannot fire, since `\d+` and `isdigit()` accept only ASCII digits in a Python 2 `str`. The missing match raises `AttributeError` on `None.groups()`; the model reports it as `NoPackerArgs`.
- Python 2 `unicode` word characters and digits: strings are treated as sequences of characters with ASCII `\w` and digits.
- The `re` engine itself: each pattern is modelled as a relation on match positions plus a search proved to choose the engine's match. Nothing else of the engine is modelled.
- `random.choice` for `DEFAULT_USER_AGENT`: modelled as an index parameter `choice` taken modulo the list length.
- CloudflareScrape.AgentHeadersMeaning: it does not state that the new User-Agent no longer contains `requests`, so running the rule twice is not shown to be idempotent. Proving that no built-in agent contains that word was not carried out.
- `time.sleep`: modelled as an entry in the transport's pause log.
- HTTP and `requests` internals: the response to each request is an arbitrary function of its position and contents. Case-insensitive header lookup, session header merging and `resp.text` decoding are not modelled.
- `cfdecoder.Cloudflare(request).get_url()`: modelled as an arbitrary function from the challenge response to the submission url. The unused `submit_url` built from `urlparse` is not modelled.
- CloudflareScrape.Scraper.Request: a `fuel` parameter bounds how deeply challenges may nest, failing with `OutOfFuel` when used up. The source recurses without bound: since its answer-not-accepted check can never fire, a server that keeps answering with a challenge keeps it solving and pausing for ever.
- The positional `*args` of `request`: a `Call` carries only the method, the url and the keyword arguments. The source passes `*args` to the first `Session.request` only, and `solve_cf_challenge` receives the keyword arguments alone, so positional `params`, `data` or `headers` reach neither the submission nor the final request; the model does not show that loss.
- Keyword arguments are values: `deepcopy` is therefore exact, and aliasing of nested dictionaries between the caller and the scraper is not modelled.
- `get_tokens`' own HTTP part (`create_scraper()`, `scraper.get(url)`, `raise_for_status`, `urlparse(resp.url).netloc`): `GetTokens` starts from the cookie jar and the host the fetched page left.
- CloudflareScrape.CookieValue: it returns the first cookie with that name and domain. `requests` raises `CookieConflictError` when several match (different paths), and cookie paths are not modelled.
- CloudflareScrape.GetTokens: the two tokens are returned as pairs in the order the dictionary literal writes them. The iteration order of a Python 2 dictionary may differ, and that changes the order of `get_cookie_string`'s parts.
- `Session.__init__`'s own attributes: `HasAgent` requires a header dictionary with a User-Agent, as `requests` always sets one.
- The `navigator.py` indexer of the same add-on is not part of this model.
