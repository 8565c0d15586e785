# Docker monitor dashboard: a verified model of its core

This project models the two halves of a small Docker monitoring service.

- **The dashboard** (`static/app.js`) polls `/status` and reconciles a table of container rows with each snapshot. It smooths CPU and RAM readings with an exponential moving average. It derives network rates from cumulative counters against a running peak, and fetches per-container metrics for the rows in view in chunks of six. A re-entrancy flag guards `render`, which falls back to the last good snapshot, shown as pending, when a poll fails. It also turns image references into repository links and labels, builds query strings that carry the API key, fills translation placeholders, and classifies the reply to an update request.
- **The server** (`script.py`) parses image references and resolves their registry and manifest URL. It parses the `WWW-Authenticate` Bearer challenge (section 4.1 of RFC 7235, section 3 of RFC 6750) and normalises and de-duplicates digests. It caches remote digests for an hour and container stats for two seconds, and classifies each container as `up_to_date`, `update_available`, `registry_error`, `unknown_local_digest`, `unknown_image` or `error: …`. It also chooses the image reference an update pulls, recognises network modes that are not reconnected, sums network and block-I/O counters, and keeps the auth settings (`_truthy`, `_check_auth`, `GET`/`POST /settings`, the CIDR allow-list loop).

## Layout

| file | what it holds |
|---|---|
| `Wrappers.dfy` | `Option` |
| `Text.dfy` | string operations with the source languages' meanings: ASCII lower-casing, `split`/`join`, `indexOf`/`lastIndexOf`, `strip` over Python's and JavaScript's whitespace sets, integer printing |
| `UrlEncoding.dfy` | UTF-8 percent-encoding (`encodeURIComponent`, `URLSearchParams` form encoding) and form decoding |
| `ImageLinks.dfy` | `repoLinkFromImage`, `repoLabelFromImage`, `stateClass` |
| `ClientText.dfy` | `keyParams`, `buildUrl`, the `t` placeholder substitution, the outcome of `updateContainer` |
| `Smoothing.dfy` | `clampPct`, the EMA step, the network rate and the peak |
| `Batching.dfy` | the chunking of the visible names into groups of six |
| `Dashboard.dfy` | the dashboard engine: the value `Engine` with pure steps and lemmas, and the class `DashboardState`, whose methods mutate maps and loop as the script does and are proved equal to those steps |
| `RegistryRefs.dfy` | `_split_repo_tag`, `_resolve_registry_and_path`, the manifest URL, `_parse_www_authenticate`, `_digest_only`, `_local_repo_digests` |
| `TtlCache.dfy` | `_pull_cache` and `_stats_cache` as one class `Cache`; `fetch_remote_digest_cached`, `_compute_stats_cached` |
| `UpdateCheck.dfy` | `check_updates_for_containers` and its light twin, the image reference of `update_container`, `_is_special_network_mode`, the counter sums of `_compute_stats` |
| `ServerSettings.dfy` | `_truthy`, `_check_auth`, `_is_ip_allowed`, `GET /settings`, `post_settings` (the class `Settings` holds the three globals) |
| `Protocol.dfy` | the dashboard and the server together: the key the dashboard holds after `fetchSettings`/`saveSettings`, and whether `_check_auth` accepts it |

The settings round trip has one behaviour worth knowing. `GET /settings` replaces the key with `********` while auth is on, and `fetchSettings` stores whatever the reply shows. With auth on, the dashboard therefore holds and sends `key=********` from page load, where the settings are read before the first render, and again after opening the settings; it is refused unless the server's key is the mask itself (`Protocol.FetchedMaskLocksOut`). Saving the form unchanged then posts the mask back, which becomes the server's real key and restores access (`ServerSettings.EchoedViewStoresMask`, `Protocol.SavingMaskedFormRestoresAccess`).

## Model

| member | source | states |
|---|---|---|
| Text.LowerChar | script.py:14 | the result is never an ASCII capital, and any other character is unchanged |
| Text.Lower | script.py:14 | the result has the input's length and holds, at each position, the lower-case form of the input's character there |
| Text.LowerIdempotent | script.py:14 | lower-casing twice equals lower-casing once |
| Text.LowerOfLowered | script.py:14 | a text without ASCII capitals is its own lower-case form |
| Text.LowerAppend | script.py:14 | lower-casing distributes over concatenation |
| Text.IndexOf | script.py:149-150 | the index of the first occurrence of a character, or the length when the character is absent: nothing before it matches, and the character is there when the index is in range |
| Text.LastIndexOf | static/app.js:159 | `lastIndexOf`: -1 when absent; otherwise the character is at the index and at no later position |
| Text.BeforeFirst | static/app.js:147 | `split(':')[0]`: a prefix of the input without the separator, strictly shorter exactly when the separator occurs |
| Text.AfterFirst | script.py:165 | the text after the first separator; the input is the part before, the separator, and the result |
| Text.Split | script.py:162 | Python `str.split(sep)`: at least one part, and no part contains the separator |
| Text.SplitJoin | script.py:162 | splitting the join of separator-free parts gives back those parts |
| Text.JoinSplit | script.py:162 | joining the parts of a split gives back the text |
| Text.SplitAtFirst | script.py:165 | for `p + c + rest` with `c` not in `p`, the parts before and after the first `c` are `p` and `rest` |
| Text.IndexOfIs | script.py:149 | the first occurrence is found at the position where it is |
| Text.IndexOfAbsent | script.py:149 | an absent character gives the length |
| Text.LastIndexOfIs | static/app.js:159 | the last occurrence is found at the position where it is |
| Text.LastIndexOfAbsent | static/app.js:159 | an absent character gives -1 |
| Text.TrimStart | static/app.js:145 | the result is a suffix of the input, every removed leading character belongs to the class, and the result does not start with one |
| Text.TrimEnd | static/app.js:145 | the result is a prefix of the input, every removed trailing character belongs to the class, and the result does not end with one |
| Text.Strip | script.py:166 | `str.strip`/`trim`: the result is no longer than the input and neither starts nor ends with a class character (that it is a slice cut only at class characters is `Text.StripsOnlyClass`) |
| Text.StripsOnlyClass | script.py:166 | the strip is a contiguous slice of the input, and every character cut before or after it is in the class |
| Text.StripClean | script.py:166 | a text whose ends are not stripped characters is unchanged |
| Text.StripIdempotent | script.py:166 | stripping twice equals stripping once |
| Text.NatToString | static/app.js:297 | the decimal text of a number: non-empty, all digits, no leading zero, and its digits read back as the number |
| Text.IntToString | static/app.js:297 | the decimal text of an integer: a leading `-` exactly for a negative number, and the digits read back as its magnitude |
| UrlEncoding.Utf8 | static/app.js:114 | the shortest UTF-8 form: 1, 2, 3 or 4 bytes for code points below 0x80, 0x800, 0x10000 and above; a lead byte of the matching form and continuation bytes `10xxxxxx`; the bytes decode to the code point; ASCII is its own code |
| UrlEncoding.HexDigit | static/app.js:114 | an alphanumeric hex digit whose value is the digit given |
| UrlEncoding.PercentBytes | static/app.js:114 | for each byte in order, `%` followed by the upper-case hex digits of its high and low half |
| UrlEncoding.EncodeSafe | static/app.js:114 | every character of an encoding is one the encoder may emit: an unreserved character, `%`, a hex digit, or `+` in form encoding |
| UrlEncoding.EncodedHasNo | static/app.js:114-115 | a character the encoder never emits (such as `&` or `=`) is absent from any encoding |
| UrlEncoding.DecodeEncodedChar | static/app.js:114 | decoding the form encoding of an ASCII character gives that character back, whatever follows |
| UrlEncoding.FormRoundTrip | static/app.js:114 | form-decoding the form encoding of an ASCII text gives the text back |
| ImageLinks.LastSegment | static/app.js:149 | `split('/').pop()`: a tail of the path without `/` |
| ImageLinks.RepoPath | static/app.js:145-147 | the repository path of the trimmed, unbracketed reference contains no `:` |
| ImageLinks.Site | static/app.js:148-153 | the first rule that applies: `ghcr.io/<rest>` is GitHub with `<rest>`; `lscr.io/linuxserver/…` is LinuxServer with the last segment; a path without `/` is a Docker official image; a first segment without `.` or `:` is a Docker Hub user path; anything else is a web search for the path |
| ImageLinks.SiteUrl | static/app.js:148-153 | the address of each site: `https://github.com/<path>`, `https://github.com/linuxserver/docker-<name>`, `https://hub.docker.com/_/<name>`, `https://hub.docker.com/r/<path>`, or the search URL with the encoded path and `+docker` |
| ImageLinks.RepoLinkTargets | static/app.js:147-153 | the link of a reference is the address its repository path selects, for each of the five cases |
| ImageLinks.NginxLink | static/app.js:147-150 | `nginx:latest` links to `https://hub.docker.com/_/nginx` |
| ImageLinks.RepoLink | static/app.js:143-154 | a link exists exactly when the reference is present and non-empty |
| ImageLinks.CleanRefOfClean | static/app.js:145-146 | a reference without surrounding blanks or brackets is used as written |
| ImageLinks.TagDoesNotChangeLink | static/app.js:147-153 | `repo:tag` links to the same page as `repo` |
| ImageLinks.RepoPathOfTagged | static/app.js:147 | the path of `repo:tag` is `repo` |
| ImageLinks.LinkIsHttps | static/app.js:148-153 | every link starts with `https://` |
| ImageLinks.DropPrefix | static/app.js:162 | a one-time `replace(/^prefix/, '')`: the result is a tail of the input, and the prefix followed by the result gives the input exactly when the prefix was there |
| ImageLinks.TagStart | static/app.js:159 | the position of the last `:`: at it is a `:` and no `:` follows; the length when there is none |
| ImageLinks.RepoLabel | static/app.js:155-163 | a label exists exactly when the reference is present and non-empty |
| ImageLinks.ShortPathIsTail | static/app.js:162 | dropping the four prefixes leaves a tail of the path |
| ImageLinks.LabelIsTailOfReference | static/app.js:155-163 | the label is a tail of the cleaned reference and ends with the reference's tag, from its last `:`, kept verbatim |
| ImageLinks.LabelOfTaggedRef | static/app.js:159-162 | with a last `:` at `k`, the label is the shortened path before `k` followed by the text from `k` |
| ImageLinks.LabelOfUntaggedRef | static/app.js:159-162 | without `:`, the label is the shortened path and no tag |
| ImageLinks.StateClassIgnoresCase | static/app.js:164-171 | the state class depends only on the lower-cased state |
| ImageLinks.StateClass | static/app.js:164-171 | `ok` exactly for running or healthy, `warn` exactly for restarting, starting or unhealthy, `err` exactly for exited, dead, removing or error, in any letter case; anything else, and a missing state, is `muted` |
| ImageLinks.TagTone | static/app.js:133-137 | `ok` exactly for `up_to_date`, `warn` exactly for `update_available`, `muted` exactly for `not_found`, and `err` for every other status |
| ClientText.Lookup | script.py:69 | `request.args.get`: the value of the first pair with the key; nothing exactly when no pair has it |
| ClientText.DecodeParts | script.py:69 | the pairs of the query parts in order, empty parts skipped; with no empty part, one pair per part |
| ClientText.SetParamLookup | static/app.js:118-119 | after setting `k`, `k` reads the new value and every other key reads as before |
| ClientText.SetParamKeys | static/app.js:118-119 | the keys after setting `k` are the old keys plus `k` |
| ClientText.SetParamUnique | static/app.js:118-119 | setting a key keeps the keys unique |
| ClientText.KeyParamsCarriesKey | static/app.js:117-121 | with auth on and a non-empty key, `key` carries the API key; otherwise the parameters are unchanged; other keys are untouched; unique keys stay unique |
| ClientText.Query | static/app.js:114 | the query text is empty exactly when there are no parameters |
| ClientText.BuildUrl | static/app.js:113-116 | no parameters give the bare path; otherwise path, `?` and the query |
| ClientText.DecodeEncodedPair | static/app.js:114 | decoding an encoded ASCII pair gives the pair back |
| ClientText.QueryRoundTrip | static/app.js:114 | parsing the query of non-empty ASCII parameters gives back the same parameters in the same order |
| ClientText.WordLen | static/app.js:99 | the length of the leading run of `\w` characters: all of them are word characters and the next is not |
| ClientText.SubstituteLiteral | static/app.js:99 | text without `{` is copied through unchanged |
| ClientText.SubstituteHole | static/app.js:99 | `{name}` becomes the variable's value, or empty when it is missing |
| ClientText.SubstituteWritten | static/app.js:99 | substituting a template written from literal and hole pieces fills each hole and keeps each literal |
| ClientText.TranslateWithoutVars | static/app.js:97-98 | with no variables the looked-up text is returned as is |
| ClientText.MissingKeyShowsKey | static/app.js:97 | a key missing from both languages is shown as itself |
| ClientText.ErrorReplyReported | static/app.js:297-300 | a non-OK reply is a failure with no re-render; without a JSON body its message is `HTTP <status>` |
| ClientText.UpdatedFalseWins | static/app.js:301-305 | `updated: false` means already up to date, whatever the message says |
| ClientText.PhraseIgnoresCase | static/app.js:301-306 | the `already up to date` and `recreated/updated/pulled` tests ignore letter case |
| ClientText.SuccessRenders | static/app.js:301-309 | an OK reply always re-renders, forced exactly when the update was not found already current |
| Smoothing.ClampPct | static/app.js:316-320 | NaN, infinities and values at or below 0 give 0; above 100 gives 100; values in between are kept |
| Smoothing.ClampIdempotent | static/app.js:316-320 | clamping a clamped value changes nothing |
| Smoothing.EmaBetween | static/app.js:181 | the next average lies between any bounds that hold both the previous average and the new value |
| Smoothing.EmaStaysPercent | static/app.js:365-373 | averaging a clamped value into a percentage gives a percentage |
| Smoothing.EmaContracts | static/app.js:181 | each step closes the gap to the new value by a factor of 0.7 |
| Smoothing.EmaConverges | static/app.js:181 | after `n` equal readings the gap is 0.7 to the power `n` times the initial gap |
| Smoothing.NetRateOf | static/app.js:195-201 | zero rates without a prior sample or elapsed time; otherwise the elapsed time is `(now - prev.t) / 1000`, each rate times the elapsed time is its counter's increase, and a counter that went down gives rate 0 |
| Smoothing.PeakAfter | static/app.js:202 | the largest of the old peak, 1.2 times the summed rate and 1 MiB/s after a measurement; unchanged without one |
| Smoothing.PeakStaysAboveFloor | static/app.js:174-203 | a peak at or above 1 MiB/s stays there |
| Smoothing.NetPct | static/app.js:378-379 | the bar is the summed rate as a percentage of `max(peak, 1)`: that value when it lies in [0, 100], 100 above, 0 below |
| Smoothing.NetBarHasHeadroom | static/app.js:202-203 | right after a measurement the bar is at most 100/1.2 percent, since the peak includes 1.2 times the rate |
| Smoothing.ShareOfPeak | static/app.js:378-379 | a rate at most peak/1.2 draws at most 100/1.2 percent |
| Batching.Flatten | static/app.js:506-510 | the names visited, chunk after chunk |
| Batching.FlattenAppend | static/app.js:506-510 | visiting two runs of chunks visits the names of both in order |
| Batching.ChunksFlatten | static/app.js:506-510 | the chunks, in order, contain every name exactly once and in the original order |
| Batching.ChunkSizes | static/app.js:507-509 | every chunk has 1 to 6 names, and all but the last have exactly 6 |
| Batching.ChunkCount | static/app.js:507-509 | the number of chunks is the number of names divided by 6, rounded up |
| Batching.FiftyNamesNineChunks | static/app.js:507-509 | 50 visible names take 9 rounds |
| Batching.ChunksStep | static/app.js:508-509 | the chunks from `i` are the slice `i..i+6` (cut at the end) followed by the chunks after it |
| Batching.ChunksAdvance | static/app.js:508-509 | the loop's rounds so far, plus the chunks still to come, are all the chunks |
| Dashboard.Get | static/app.js:180 | `Map.get`: a value exactly when the key is present, and then the stored value |
| Dashboard.PendingRowIsSkeleton | static/app.js:482-500 | a pending row shows the pending tag and the skeleton, and its update button is enabled |
| Dashboard.SettledRowKeepsMetrics | static/app.js:485-490 | a settled row shows its status tag, keeps populated metrics, and shows the skeleton if it had none |
| Dashboard.UpdateDisabledExactly | static/app.js:500 | the update button is disabled exactly when the row is not pending and the status is `not_found` or starts with `error`; such a status has a muted or error tone |
| Dashboard.LinkAndLabelTogether | static/app.js:495-498 | the link cell is redrawn from the snapshot's reference whatever the prior row showed: link and label are those of the reference, present exactly when it is |
| Dashboard.Initial | static/app.js:173-176 | the state at page load satisfies the engine invariant |
| Dashboard.Without | static/app.js:411 | `visibleNames.delete` for a set of names: exactly the names not deleted remain, none added |
| Dashboard.WithoutStep | static/app.js:405-414 | deleting names one by one equals deleting them together |
| Dashboard.WithoutAppend | static/app.js:411 | deleting from a concatenation deletes from each part |
| Dashboard.WithoutKeepsDistinct | static/app.js:411 | deleting from a set keeps it a set |
| Dashboard.ApplyRows | static/app.js:416-501 | the rows after an update are keyed by exactly the snapshot's names |
| Dashboard.ApplyIgnoresFailedSnapshot | static/app.js:404 | a snapshot whose status is not `ok` changes nothing |
| Dashboard.ApplyMatchesSnapshot | static/app.js:403-501 | after an `ok` snapshot the row names equal the snapshot's names, and the peak, the render flag and the cache are unchanged |
| Dashboard.ApplyPurgesRemoved | static/app.js:408-414 | a removed name leaves the rows, both averages, the network samples and the visible set |
| Dashboard.ApplyKeepsSurvivors | static/app.js:416-501 | a name still in the snapshot keeps its averages and network sample |
| Dashboard.ApplyIdempotent | static/app.js:403-501 | applying the same snapshot twice equals applying it once |
| Dashboard.ApplyPreservesValid | static/app.js:403-501 | reconciliation keeps the invariant: averages are percentages, the peak is at least 1 MiB/s, state exists only for rows, and visible names are distinct rows |
| Dashboard.EmaStore | static/app.js:178-184 | a non-finite value gives 0 and leaves the map alone; a first observation stores and returns the value; after that, `0.3 v + 0.7 prev` |
| Dashboard.FirstObservationIsRaw | static/app.js:365-368 | the first CPU reading for a name is drawn unsmoothed (only clamped) |
| Dashboard.NetBarBelowFull | static/app.js:375-381 | after a measurement the network bar of a row is at most 100/1.2 percent |
| Dashboard.MetricsCellPreservesValid | static/app.js:345-386 | drawing a metrics cell keeps the engine invariant |
| Dashboard.CpuPartStaysPercent | static/app.js:365-368 | the CPU averages stay percentages, and only the drawn name is added |
| Dashboard.RamPartStaysPercent | static/app.js:370-373 | the RAM averages stay percentages, and only the drawn name is added |
| Dashboard.MetricsAllAppend | static/app.js:506-510 | handling two runs of replies in turn equals handling them together |
| Dashboard.MetricsAllAdvance | static/app.js:508-509 | the replies handled before `i`, then those from `i` to `j`, are the replies handled before `j` |
| Dashboard.ReplyForUnknownNameDropped | static/app.js:280-281 | a metrics reply for a name with no row changes nothing |
| Dashboard.MetricsAllPreservesValid | static/app.js:505-511 | any sequence of metrics replies keeps the invariant, the row names and the visible names |
| Dashboard.IntersectPreservesValid | static/app.js:392-396 | an enter or leave event keeps the invariant; an empty name is skipped, and any other name is visible afterwards exactly when it entered |
| Dashboard.AllPending | static/app.js:517-524 | every row shows the pending tag and the loading skeleton, with the same row names and its link, label and button left as they were |
| Dashboard.RenderIsGuarded | static/app.js:514 | while a render runs, another changes nothing |
| Dashboard.RenderLowersFlag | static/app.js:542-544 | every render ends with the flag lowered, whatever the fetch did |
| Dashboard.RenderSuccess | static/app.js:526-530 | an `ok` reply is cached, and the rows become its names, each with its status tag |
| Dashboard.RenderFailureFallsBack | static/app.js:531-541 | a failed fetch shows the cached `ok` snapshot as pending skeleton rows; without one the rows and cache stay as they were |
| Dashboard.RenderPreservesValid | static/app.js:513-545 | both phases of a render keep the invariant |
| Dashboard.BeginPreservesValid | static/app.js:513-524 | raising the flag and marking rows pending keeps the invariant |
| Dashboard.FinishPreservesValid | static/app.js:525-545 | showing the fetched or cached snapshot and lowering the flag keeps the invariant |
| Dashboard.ReappearingNameStartsFresh | static/app.js:408-414 | a container removed and re-added starts a fresh CPU baseline |
| Dashboard.DashboardState.constructor | static/app.js:639-647 | the initial state is the page-load engine, with a cached good snapshot already shown pending |
| Dashboard.DashboardState.EmaUpdate | static/app.js:178-184 | the chosen map and the result are as `EmaStore` gives them; nothing else changes |
| Dashboard.DashboardState.ComputeNetRate | static/app.js:191-204 | the sample is always overwritten; the rate and the new peak are `NetRateOf` and `PeakAfter`; nothing else changes |
| Dashboard.DashboardState.RenderResourcesCell | static/app.js:345-386 | the new state is the pure metrics-cell step |
| Dashboard.DashboardState.FetchMetricsOne | static/app.js:275-285 | the new state is the one-reply step, which drops failed replies and replies for unknown names |
| Dashboard.RefreshTouchesOwnRow | static/app.js:446-468 | a row refresh changes only its own row and leaves the update button as it was; a failure leaves the row showing the skeleton and changes nothing else |
| Dashboard.RefreshReplyDraws | static/app.js:452-460 | a reply shows the new status, link and drawn metrics, and advances averages, samples and peak exactly as a fetched reply does |
| Dashboard.RefreshPreservesValid | static/app.js:446-468 | a row refresh keeps the engine's invariant |
| Dashboard.DashboardState.RefreshRow | static/app.js:446-468 | the new state is the refresh step for the request's outcome |
| Dashboard.DashboardState.FetchRound | static/app.js:509 | one round handles the chunk's replies in order |
| Dashboard.DashboardState.FillVisibleMetricsLazily | static/app.js:505-511 | the rounds are exactly the chunks of six of the visible names, and the state is every visible name's reply handled in order |
| Dashboard.DashboardState.OnIntersection | static/app.js:390-397 | the visible set gains an entering name and loses a leaving one, and an empty name changes nothing |
| Dashboard.DashboardState.ApplyData | static/app.js:403-502 | the new state is the pure reconciliation step |
| Dashboard.DashboardState.Purge | static/app.js:406-415 | every removed name is deleted from the rows, both averages, the samples and the visible names; nothing else changes |
| Dashboard.DashboardState.Forget | static/app.js:408-413 | one name is deleted from all five structures; nothing else changes |
| Dashboard.DashboardState.Reconcile | static/app.js:416-501 | each snapshot entry reuses or creates its row and sets status, metrics, link, label and button; the maps are untouched |
| Dashboard.DashboardState.BeginRender | static/app.js:513-525 | a render starts exactly when none is running, and the state is the pure begin step |
| Dashboard.DashboardState.FinishRender | static/app.js:525-544 | the new state is the pure finish step |
| Dashboard.DashboardState.Render | static/app.js:513-545 | the new state is the pure render step |
| RegistryRefs.SplitRepoTag | script.py:148-152 | with a `/` before the first `:`, split at the last `:`; with `:` and no `/`, split at the first `:`; otherwise the tag is `latest` |
| RegistryRefs.SplitNameTag | script.py:150 | `name:tag` splits into its name and tag |
| RegistryRefs.PortIsNotATag | script.py:148-151 | `host:5000/app` keeps the port in the repository and takes the tag `latest` |
| RegistryRefs.ResolveRegistry | script.py:153-158 | `lscr.io/<rest>` is `lscr.io` with `<rest>`; a bare name is `library/<name>` on Docker Hub; a first segment with `.` or `:` is the registry and the rest the path; any other path is on Docker Hub unchanged |
| RegistryRefs.UserImagePath | script.py:158 | `user/name` resolves to Docker Hub with the path unchanged |
| RegistryRefs.ManifestUrlOfOfficialImage | script.py:150-155 | `name:tag` pulls `library/name` from Docker Hub |
| RegistryRefs.ManifestUrlOfHostedImage | script.py:148-157 | `host/path:tag` on a dotted host pulls `path` from that host |
| RegistryRefs.ManifestUrlOfUserImage | script.py:224-226 | `user/name:tag` pulls `user/name` at `tag` from Docker Hub |
| RegistryRefs.ManifestUrlOfLscrImage | script.py:224-226 | `lscr.io/<rest>:tag` pulls `<rest>` at `tag` from `lscr.io` |
| RegistryRefs.PortedRegistry | script.py:156-157 | a first segment with a `:` (a port) is the registry, and the rest is the path |
| RegistryRefs.ManifestUrlOfPortRegistry | script.py:224-226 | `host:5000/app` pulls `app` at `latest` from `host:5000` |
| RegistryRefs.ParseChallenge | script.py:159-161 | a result exactly when the scheme is `bearer` in any letter case |
| RegistryRefs.ParseWwwAuthenticate | script.py:159-167 | the loop builds the map the challenge function describes |
| RegistryRefs.CollectParams | script.py:162-166 | the loop adds each comma-separated part with `=` in order, later keys overwriting earlier ones |
| RegistryRefs.BearerHeader | script.py:160-166 | for `Bearer <body>`, the parameters come from the comma-split body |
| RegistryRefs.StripQuoted | script.py:166 | stripping blanks and then quotes recovers a quoted value |
| RegistryRefs.AddQuotedParam | script.py:163-166 | a part `k="v"` adds `k` mapped to `v` |
| RegistryRefs.AddQuotedParams | script.py:162-166 | a list of quoted parts builds the map of their pairs |
| RegistryRefs.ChallengeRoundTrip | script.py:159-167 | `Bearer k1="v1",k2="v2",…` with comma-free tokens parses to the pairs |
| RegistryRefs.QuotedCommaIsCut | script.py:162 | a quoted value containing a comma is cut at the comma, keeping only its first half |
| RegistryRefs.DigestOnly | script.py:292-298 | nothing exactly for a missing or empty value; otherwise a lower-cased digest |
| RegistryRefs.Unquoted | script.py:295 | a value without surrounding blanks or quotes survives the three strips |
| RegistryRefs.DigestOfPinnedReference | script.py:292-298 | `repo@digest` and the bare digest both normalise to the lower-cased digest |
| RegistryRefs.DigestOfBare | script.py:295-298 | a bare value normalises to its lower-cased text after the first `@` |
| RegistryRefs.Normalised | script.py:303-304 | each repo digest normalised in its place |
| RegistryRefs.LocalRepoDigests | script.py:300-309 | the digests the loop collects |
| RegistryRefs.CollectLocalDigests | script.py:300-309 | the loop yields exactly the specified list |
| RegistryRefs.CollectKeepsDistinct | script.py:305 | appending only absent digests keeps them distinct |
| RegistryRefs.CollectMembers | script.py:303-306 | a digest is collected exactly when it was already there or is a non-empty normalised digest |
| RegistryRefs.CollectHasNoEmpty | script.py:305 | no empty digest is ever collected |
| RegistryRefs.FirstSome | script.py:303-306 | the position of the first entry normalising to a digest: present exactly when some entry does, and no earlier entry does |
| RegistryRefs.CollectSnoc | script.py:303-306 | collecting one more entry is one more loop step |
| RegistryRefs.CollectOrder | script.py:303-306 | digests come out in the order of the first entry that gives each |
| RegistryRefs.LocalDigestsSpec | script.py:300-309 | the local digests are distinct, non-empty, exactly the normalised digests of the repo digests, and ordered by first occurrence |
| TtlCache.Lookup | script.py:237-244 | an unforced lookup of a fresh entry returns its value and changes nothing; otherwise the computed value is returned and stored with the lookup time; either way the key holds the value returned and other entries are untouched |
| TtlCache.Stamp | script.py:239 | `now_ts or time.time()`: the given time unless missing or zero |
| TtlCache.SecondLookupHits | script.py:240-241 | within the time-to-live of the stored entry, an unforced lookup returns it and changes nothing |
| TtlCache.ServedForTtl | script.py:240-243 | a value computed at `t1` is served at any `t2` in `[t1, t1 + ttl)` |
| TtlCache.ExpiresAtTtl | script.py:240 | exactly `ttl` seconds after its stamp an entry is stale and recomputed |
| TtlCache.Cache.constructor | script.py:392-393 | a cache starts empty with its time-to-live |
| TtlCache.Cache.Get | script.py:237-244 | the returned value and new entries are the lookup's |
| TtlCache.FetchRemoteDigestCached | script.py:237-244 | the pull cache with 3600 s, keyed by image reference, honouring `force` and `now_ts` |
| TtlCache.ComputeStatsCached | script.py:394-402 | the stats cache with 2 s, keyed by container name, never forced |
| UpdateCheck.LatestOf | script.py:414-415 | `repo:latest` from a repo digest is non-empty and has no `@` |
| UpdateCheck.ImageRefOf | script.py:410-416 | the first of `RepoTags`, else of the image tags, if it is non-empty; otherwise `<repo>:latest` from the first repo digest; nothing exactly when neither exists |
| UpdateCheck.Classify | script.py:417-428 | each of the five statuses exactly when its branch applies: `unknown_image` without a reference, `unknown_local_digest` with a reference but no local digest, `registry_error` when only the remote digest is missing or empty, `up_to_date` when some local digest normalises equal to the remote one, `update_available` when none does |
| UpdateCheck.CheckOne | script.py:406-432 | one container adds exactly its own status and meta entry and keeps the others; an inspection error reports `error: <message>`; otherwise the status is `Classify` of its reference and local digests, with the remote digest from the pull cache only when both exist, and the pull cache becomes that lookup's (unchanged when none is made) |
| UpdateCheck.CheckUpdatesForContainers | script.py:404-464 | the loop's statuses, meta and pull cache are the fold of the per-container step, for both the full and the light variant |
| UpdateCheck.NamesStep | script.py:407-408 | the names of a list are its first name plus the rest's |
| UpdateCheck.CheckCoversNames | script.py:404-433 | every container name gets exactly one status and one meta entry, and no other name appears |
| UpdateCheck.LaterTurnsKeepStatus | script.py:404-433 | a name not checked again keeps its status |
| UpdateCheck.InspectionErrorReported | script.py:429-431 | a container whose inspection raises, with no later container of the same name, ends as `error: <message>` |
| UpdateCheck.CheckSplit | script.py:406-432 | the fold is the prefix, then container `k`, then the rest |
| UpdateCheck.CheckAppend | script.py:406-432 | checking two lists in turn equals checking their concatenation |
| UpdateCheck.FreshCacheDecides | script.py:239-241 | with a fresh cache entry, the status follows from the cached digest and the cache is untouched |
| UpdateCheck.QuotedDigestNeedsSecondPass | script.py:292-298 | the entry `repo@"d"` normalises to `"d` lower-cased, which normalises again to `d` lower-cased, so normalising twice can give a different digest |
| UpdateCheck.RenormalisedDigest | script.py:292-298 | a clean digest (no surrounding blanks or quotes, no `@`) normalises to its lower-cased self |
| UpdateCheck.PinnedDigestIsLocal | script.py:300-309 | the digest of a `repo@digest` entry appears, lower-cased, among the local digests |
| UpdateCheck.PinnedDigestIsUpToDate | script.py:417-428 | a remote digest equal, ignoring letter case, to a pinned local digest gives `up_to_date` |
| UpdateCheck.UpToDateIff | script.py:424-427 | `up_to_date` exactly when some repo digest normalises to a digest that, normalised again, equals the normalised remote digest |
| UpdateCheck.UpdateImageRef | script.py:560-569 | a configured image pinned by `@sha256:` gives `repo:latest`; any other configured image is used as is; without one, the first tag if non-empty; else `repo:latest` from the first repo digest; nothing exactly when none exists |
| UpdateCheck.PinnedConfigPullsLatest | script.py:561-562 | a configured `repo@sha256:…` pulls `repo:latest` |
| UpdateCheck.IsSpecialNetworkMode | script.py:622-625 | a missing or empty mode is never special |
| UpdateCheck.SpecialModeIgnoresCase | script.py:622-625 | the decision depends only on the lower-cased mode |
| UpdateCheck.SpecialModes | script.py:622-625 | `container:<id>` for every id, `host` and `none` are special; `bridge`, a missing and an empty mode are not |
| UpdateCheck.NetTotals | script.py:349-354 | the loop's totals are the summed receive and transmit counters |
| UpdateCheck.SumRxAppend | script.py:351-352 | the receive total over two network lists is the sum of their totals |
| UpdateCheck.BlkioTotals | script.py:357-362 | the loop's totals are the summed `read` and `write` values, matching the op in any letter case |
| UpdateCheck.ReadsAndWritesPartition | script.py:359-362 | with non-negative values, reads and writes are non-negative and together at most the sum of all values |
| ServerSettings.TruthyIgnoresCase | script.py:13-14 | `_truthy` depends only on the lower-cased text |
| ServerSettings.TruthyExamples | script.py:13-14 | `TRUE`, `Yes` and `1` are truthy; `0`, `off` and the empty text are not |
| ServerSettings.CheckAuth | script.py:66-70 | always true with auth off; with auth on, true exactly when the key is non-empty and equals the `key` argument |
| ServerSettings.EmptyKeyLocksOut | script.py:70 | with auth on and an empty key, every request is refused |
| ServerSettings.GetSettings | script.py:252-257 | flag and CIDRs as stored; with auth on the key is shown as `********`, and it is shown as stored exactly when auth is off or the key is the mask itself |
| ServerSettings.IsIpAllowed | script.py:72-84 | allowed exactly when the address parses and some CIDR entry parses and contains it |
| ServerSettings.NonBlankTrimmed | script.py:269-271 | every kept CIDR is non-empty and stripped |
| ServerSettings.PyStrs | script.py:269 | `str(c)` of each list item, in place |
| ServerSettings.CommasToNewlines | script.py:271 | `replace(',', '\n')`: commas become newlines and nothing else changes |
| ServerSettings.NewCidrs | script.py:268-275 | an absent or non-list, non-string field keeps the CIDRs; an empty parse gives `0.0.0.0/0`; any other parse is the new list |
| ServerSettings.NewKey | script.py:263-266 | a requested key or auth on without a truthy posted key gives the fresh key; otherwise a posted non-null key as text, else the old key; with auth on and a non-empty fresh key the result is never empty |
| ServerSettings.PostKeyWhileAuthOn | script.py:259-266 | from any settings, a POST that leaves auth on leaves a non-empty key |
| ServerSettings.PostPreservesValid | script.py:259-278 | after a POST, auth on implies a non-empty key, and the CIDRs stay a non-empty list of stripped entries |
| ServerSettings.ParsedCidrsTrimmed | script.py:268-272 | parsed CIDRs are non-empty and stripped, from a list or from text |
| ServerSettings.PostSetsAuthAndGenerates | script.py:263-266 | the auth flag is the payload's truthiness; a fresh key is generated when asked for, or when auth is on and no key is posted |
| ServerSettings.KeyKeptWithoutKeyField | script.py:265-268 | with auth off, no generation and no key posted, the key is kept |
| ServerSettings.CidrsKeptWithoutList | script.py:273-275 | a missing CIDR field, or one of another type, keeps the list |
| ServerSettings.EchoedViewStoresMask | script.py:255-268 | posting back the key the GET showed while auth is on stores the mask as the key |
| ServerSettings.NonBlankClean | script.py:271 | a list of stripped, non-empty, comma-free entries passes the filter unchanged |
| ServerSettings.CommasToNewlinesJoin | script.py:271 | a comma-joined list becomes the newline-joined list |
| ServerSettings.CidrTextRoundTrip | script.py:270-271 | `a,b,c` with plain entries parses to `[a, b, c]` |
| ServerSettings.CidrListRoundTrip | script.py:268-269 | a list of plain string entries parses to itself |
| ServerSettings.JStrs | script.py:268 | the JSON list of the given strings, in place |
| ServerSettings.Settings.constructor | script.py:40-42 | auth off, no key, and `0.0.0.0/0`, which satisfies the invariant |
| ServerSettings.Settings.PostSettings | script.py:259-278 | the globals become the pure POST step's state, and the reply shows the new flag, key and CIDRs in clear |
| Protocol.KeyReachesServer | static/app.js:113-121 | with auth on and a non-empty ASCII key, the server reads back exactly that key from the request's query |
| Protocol.SavedKeyPassesAuth | static/app.js:218-231 | from any server settings, after saving a form whose stored key is ASCII, the dashboard's requests pass `_check_auth` |
| Protocol.FetchedMaskLocksOut | static/app.js:207-216 | after reading the settings with auth on (at page load or on opening the settings), the dashboard sends the mask and is refused unless the server key is the mask |
| Protocol.SavingMaskedFormRestoresAccess | static/app.js:218-231 | saving the unchanged form stores the mask as the key, and the dashboard's requests pass again |

## Left out

- Everything that builds or styles the DOM: element creation, `innerHTML`, `renderResourcesLoading` (modelled as the `Skeleton` metrics value), the `tag()` element, formatting by `formatBytes`, `formatRate` and `fmtPct`, the settings modal and its listeners, and the `I18N` tables, which are a parameter map. Rows are a map from name to field values, so row order on the page is not modelled.
- Browser and network I/O: `fetch` becomes an outcome parameter, `localStorage` an `Option<Snapshot>`, `Date.now` and `time.time` parameters, `alert`/`confirm` the outcome values, and the `IntersectionObserver` enter/leave events.
- Concurrency and timers: `Promise.all` inside a chunk is modelled as handling the chunk's replies in order, async steps become sequential method steps, and `render` is split into a begin and a finish step. The `setInterval`/`setTimeout` cadences and the `warm_remote_digest_cache` thread are not modelled.
- Floating point: averages, rates and percentages use exact `real` arithmetic, with NaN and infinity as separate `Num` cases where the script tests for them. Rounding for display is left out.
- Smoothing.NetRateOf: counters that are missing or zero read as 0, as `Number(m?.net_rx || 0)` gives. Non-numeric text counters (NaN in JavaScript) are not modelled, because JSON from the server carries integers.
- Dashboard.DashboardState.ComputeNetRate: overwrites the stored sample even when it returns zero rates. This follows the code; a description of the function as side-effect-free on that path would be wrong.
- Registry traffic: `_head_or_get`, `_fetch_with_optional_auth`, the token fetch and the `ghcr.io` fallback for `lscr.io/linuxserver/` images are one `registry` function from image reference to an optional digest.
- The CPU and memory formulas of `_compute_stats` and `_compute_light_meta`. UpdateCheck.CheckOne states which of full stats, light meta or `{}` fills the meta entry, not their contents.
- `_is_ip_allowed`: address and network parsing and membership belong to Python's `ipaddress`, so ServerSettings.IsIpAllowed takes whether the address parses and a membership function that answers nothing for an unparsable CIDR.
- `update_container` beyond the image-reference chain: the up-to-date pre-check, pulling, creating, renaming, starting and reconnecting are Docker SDK calls, so only the reference and the network-mode test are modelled.
- Disk persistence (`_load_settings_from_disk`, `_save_settings_to_disk`), environment bootstrapping of the settings, the `GUI_ENABLED` switch, Flask routing and templates, image pruning, `/diag`, `/health` and the architecture map.
- A non-object JSON body to `POST /settings` (`get_json(silent=True) or {}` with a list or number body) is not modelled; the payload is a map of fields.
- Letter case: `lower()` and `toLowerCase()` are modelled on ASCII letters only. Non-ASCII case mapping is not part of this model.
- ServerSettings.PostSettings: `secrets.token_urlsafe(24)` is a fresh-key parameter, and the invariant assumes it is non-empty.
- Dashboard.DashboardState.Render: does not start the unawaited `fillVisibleMetricsLazily()` that `render` fires after applying a fresh snapshot (static/app.js:529), and the constructor does not start the delayed fill of the start-up sequence (static/app.js:650). Their replies arrive later and interleave with other steps, so the fill is the separate method Dashboard.DashboardState.FillVisibleMetricsLazily, called as its own step.
- Dashboard.DashboardState.FillVisibleMetricsLazily: uses one `now` for every round, while the script reads `Date.now()` in `computeNetRate` after each awaited chunk (static/app.js:192, static/app.js:509). The different elapsed times of later chunks are not modelled.
- Dashboard.DashboardState.RefreshRow: requires the row to exist. A row that `applyData` removes while its refresh request is in flight is not modelled; the script would then update a detached row and re-create averages for a name without a row.
- UpdateCheck.IsSpecialNetworkMode: its own contract states only that a missing or empty mode is not special. The special modes are stated by UpdateCheck.SpecialModes for `container:<id>`, `host`, `none` and `bridge`, and UpdateCheck.SpecialModeIgnoresCase covers letter case.
- Protocol.KeyReachesServer: proved for ASCII keys and parameters; form decoding of multi-byte UTF-8 sequences is not modelled.
- Protocol.SavedKeyPassesAuth: for the same reason requires the stored key and the extra parameters to be ASCII; a non-ASCII key typed into the settings form is not covered.
