# Netdisk-link engine: a Dafny model

This project models the link engine of the box-passkey browser extension: the content
script that finds share links of Chinese cloud-drive platforms (Baidu Netdisk, Aliyun
Drive, Weiyun, 115, Lanzou, Quark, 123pan) on a page, guesses their access codes
("提取码") from the surrounding text, replaces each link with a one-click access button,
and keeps the `foundLinks` registry of what it has handled; together with the offline
`chrome.storage` store of saved links, usage history and points.

The modules follow the source files:

- `Regex` holds hand-written recognisers for every regular expression of the pattern
  tables: a match anchored at an offset, the leftmost search (`match`/`test`) and the
  `lastIndex`-driven global `exec` loop.
- `LinkDetector` and `LinkExtractor` model `utils/link-detector.js`.
- `Passwords` models `utils/password-extractor.js`.
- `UrlNormalizer`, `TextUrls`, `Anchors`, `Containers`, `Registry`, `Settings`, `Actions`
  and `Observer` model the named functions of `content.js`.
- `LocalStore` models `utils/localStorageManager.js`.
- `Base`, `Js` and `Dom` hold what they share: string search, JavaScript values and
  object spread, and the nodes a replacement leaves in a parent.

How the source is represented:

- Strings are sequences of UTF-16 code units. Regexes are deterministic recognisers,
  with JavaScript's semantics for the pieces they use: `\b` and `/i` case folding work on
  ASCII letters and digits only, while `\s` is the full JavaScript whitespace set
  (`Base.IsJsSpace`).
- The `foundLinks` map is a `map<string, LinkInfo>`.
- The DOM is reduced to what each routine reads:
  - an anchor's `href`, its marker class and the buttons inserted before it;
  - a container's `innerHTML` and `innerText`;
  - a text node's value, its position among its parent's children, and whether it is
    still attached.
- The background's answers are parameters:
  - the `getSettings` reply;
  - the `submitLink` success flag, `Context.accepts`.
- Timestamps and ids of the local store are parameters as well.

## Model

| member | source | states |
|---|---|---|
| Regex.ShareUrlAt | browser-extension/src/utils/link-detector.js:11-20 | a scheme-host-code URL match starts with `http`, ends inside the string, captures a share code of `[A-Za-z0-9_-]`, an optional 4-character password, and its host is in the text |
| Regex.LanzouAt | browser-extension/src/utils/link-detector.js:40 | the Lanzou match starts with `http`, captures a share code and never a password (the class `[ww]` admits only `w`) |
| Regex.LabelAt | browser-extension/src/utils/password-extractor.js:9-15 | a label pattern match ends inside the string and captures exactly 4 ASCII letters or digits |
| Regex.BareTokenAt | browser-extension/src/utils/password-extractor.js:18 | the `\b([a-zA-Z0-9]{4})\b` match is the 4 characters at the offset, and they form a token |
| Regex.PwdParamAt | browser-extension/src/content.js:1520 | the `[?&]pwd=([^&]+)` capture is non-empty, free of `&`, and runs to the end or to a `&` |
| Regex.OptionalPwdPrefix | browser-extension/src/utils/link-detector.js:13 | the optional password group matches exactly when one of its prefixes and 4 letters or digits follow |
| Regex.CodeAndPwdPassword | browser-extension/src/utils/link-detector.js:20 | group 2 is present exactly when a prefix and 4 letters or digits follow the code, and is those 4 characters |
| Regex.InitPasswordGroup | browser-extension/src/utils/link-detector.js:13 | a Baidu init match has group 2 iff `&pwd=` plus 4 letters or digits follow the code, and group 2 is those 4 characters |
| Regex.LinkMatchShape | browser-extension/src/utils/link-detector.js:11-52 | every share-link match starts with `http`, captures a share code, and only the Baidu-init, Aliyun and 123pan patterns capture a password |
| Regex.LinkMatchHost | browser-extension/src/utils/link-detector.js:70-126 | a match of a Baidu, Aliyun or 123pan pattern implies that the host name tested by `includes` occurs in the URL |
| Regex.PasswordMatchShape | browser-extension/src/utils/password-extractor.js:7-19 | every password-pattern match captures the 4 ASCII alphanumerics that end it |
| Regex.FirstFrom | browser-extension/src/utils/password-extractor.js:73 | the search returns the leftmost offset at or after `from` where the pattern matches, and fails only when no offset matches |
| Regex.FirstPattern | browser-extension/src/utils/password-extractor.js:72-77 | the first pattern of a list that matches anywhere, with its leftmost match; every earlier pattern matches nowhere |
| Regex.AllFrom | browser-extension/src/utils/link-detector.js:179 | the global `exec` loop yields matches in increasing, non-overlapping order, and every offset where the pattern matches lies inside one of them |
| LinkDetector.InfoOf | browser-extension/src/utils/link-detector.js:73-80 | the result keeps the input URL, its `matched` text occurs in the URL at the match, its code is a share code, and only the three password-carrying patterns set `password` |
| LinkDetector.Dispatch | browser-extension/src/utils/link-detector.js:106-121 | `test` then `match` yields a result exactly when the pattern matches somewhere, built from the leftmost match |
| LinkDetector.TryInOrderIsFirstOf | browser-extension/src/utils/link-detector.js:148-161 | the loop returning at the first matching entry equals the reference "first pattern in order that matches, at its leftmost match" |
| LinkDetector.HostGuard | browser-extension/src/utils/link-detector.js:70-126 | whenever a guarded pattern matches, its `includes` guard holds |
| LinkDetector.GuardedIsLoop | browser-extension/src/utils/link-detector.js:69-161 | the body with its host-name guards equals the plain loop over the detection order (Baidu standard, Baidu init, Aliyun, 123pan, then Weiyun, 115, Lanzou, Quark) |
| LinkDetector.DetectNetDiskLink | browser-extension/src/utils/link-detector.js:66-164 | `null` for an empty URL; otherwise the first pattern of the detection order that matches, at its leftmost match, and `null` when none does |
| LinkDetector.DetectedPattern | browser-extension/src/utils/link-detector.js:148-160 | a detected link comes from a table pattern, describes the given URL and carries a non-empty code over `[A-Za-z0-9_-]` |
| LinkDetector.IsNetDiskTypeEnabled | browser-extension/src/utils/link-detector.js:285-301 | true without settings or without an entry; an `enabledPlatforms` entry takes precedence over `enabledTypes`; false exactly when the deciding entry is `false` |
| LinkExtractor.WindowRule | browser-extension/src/utils/link-detector.js:22-54 | Aliyun and 123pan use their own case-insensitive label rule for nearby passwords |
| LinkExtractor.WindowPassword | browser-extension/src/utils/link-detector.js:222-229 | the nearby password exists exactly when the rule matches in the ±100-character window, is a token, and occurs in the text |
| LinkExtractor.LinkPassword | browser-extension/src/utils/link-detector.js:199-259 | Baidu init takes group 2; Aliyun and 123pan take group 2 or else the window password; every other platform has none |
| LinkExtractor.MatchesAreLinkHits | browser-extension/src/utils/link-detector.js:179-276 | every match of a global scan is a non-empty span of the text that begins a share URL |
| LinkExtractor.LinkOf | browser-extension/src/utils/link-detector.js:180-275 | the pushed object's url occurs in the text at the match, its code is group 1, and its password follows the platform's rule |
| LinkExtractor.ScanLinks | browser-extension/src/utils/link-detector.js:179-186 | one object per match of the pattern, in scan order; each url is in the text, each code a share code, each password a token |
| LinkExtractor.ConcatRanked | browser-extension/src/utils/link-detector.js:171-277 | blocks concatenated in pattern order keep the pattern ranks sorted |
| LinkExtractor.ExtractNetDiskLinks | browser-extension/src/utils/link-detector.js:171-280 | `[]` for empty text; otherwise an object is returned exactly when the scan of some detection pattern produces it |
| LinkExtractor.ExtractedLinks | browser-extension/src/utils/link-detector.js:171-280 | every returned link comes from a detection pattern, occurs in the text, has a share code and a token or no password |
| LinkExtractor.ExtractedInPatternOrder | browser-extension/src/utils/link-detector.js:176-277 | the links come grouped by pattern: Baidu standard, Baidu init, Aliyun, 123pan, then the rest of the table |
| Passwords.ScanOf | browser-extension/src/utils/password-extractor.js:32-40 | every capture of a global password scan is a 4-character token |
| Passwords.CapturesAreTokens | browser-extension/src/utils/password-extractor.js:35 | group 1 of every match of a password pattern is a token |
| Passwords.Parts | browser-extension/src/utils/password-extractor.js:31-41 | one block of captures per pattern, in pattern order, all tokens |
| Passwords.FirstIndex | browser-extension/src/utils/password-extractor.js:36 | the offset of the first occurrence of an element |
| Passwords.Dedup | browser-extension/src/utils/password-extractor.js:36-38 | the `includes`/`push` loop keeps each element once, loses none, and orders them by first occurrence |
| Passwords.DedupKeepsBlocks | browser-extension/src/utils/password-extractor.js:31-41 | after de-duplication, elements first met in the first block come before the others |
| Passwords.ExtractPossiblePasswords | browser-extension/src/utils/password-extractor.js:26-44 | `[]` for empty text; no duplicates; every candidate is a token; a candidate is returned exactly when some pattern captures it |
| Passwords.CandidatePriority | browser-extension/src/utils/password-extractor.js:7-41 | a candidate contributed by the first n patterns comes before any candidate that only later patterns contribute |
| Passwords.DedupConcatBlocks | browser-extension/src/utils/password-extractor.js:31-41 | in the de-duplicated concatenation, what the first n blocks hold comes first |
| Passwords.Window | browser-extension/src/utils/password-extractor.js:67-69 | the window from `max(0, i-100)` to `min(len, i+len(url)+100)` is at most the link plus 200 characters and holds the link at offset `min(i, 100)` |
| Passwords.WindowOccurs | browser-extension/src/utils/password-extractor.js:67-69 | an occurrence inside the window is an occurrence in the text, at most 100 characters before the link |
| Passwords.FirstRuleHit | browser-extension/src/utils/password-extractor.js:72-77 | the capture of the first pattern that matches in the window; none exactly when no pattern matches; a token |
| Passwords.Choose | browser-extension/src/utils/password-extractor.js:53-81 | null iff the url or text is empty or there are no candidates; the only candidate; the first candidate when the url is absent; else the window rule hit or the first candidate |
| Passwords.FindPasswordForLink | browser-extension/src/utils/password-extractor.js:53-81 | null exactly in the three empty cases, and with the text's own candidates the result is always a token |
| UrlNormalizer.StripTrailingSlashes | browser-extension/src/content.js:1499 | the result is a prefix of the input, does not end in `/`, and only `/` characters were removed |
| UrlNormalizer.Capture | browser-extension/src/content.js:1508-1523 | a capture exists exactly when the pattern matches; share ids are share codes and `pwd` values are non-empty and free of `&` |
| UrlNormalizer.NormalizeNetDiskUrl | browser-extension/src/content.js:1494-1538 | empty stays empty; a URL without `pan.baidu.com` only loses its trailing slashes; otherwise the id is the `surl=` id of the init form when present, else the `/s/` id; with an id the result is `https://pan.baidu.com/s/<id>`, followed by `?pwd=<p>` exactly when a `pwd` parameter `<p>` was captured; with no id the URL only loses its trailing slashes |
| UrlNormalizer.PwdCapture | browser-extension/src/content.js:1520-1523 | the `pwd` parameter of a rebuilt URL reads back as the password it was built with |
| UrlNormalizer.CodeCapture | browser-extension/src/content.js:1508-1517 | the share id of a rebuilt URL reads back as the id it was built with |
| UrlNormalizer.NoInitInCanonical | browser-extension/src/content.js:1514 | the canonical form holds no init-form share id |
| UrlNormalizer.CanonicalFixpoint | browser-extension/src/content.js:1502-1531 | the canonical form normalises to itself |
| UrlNormalizer.InitFormNormalizes | browser-extension/src/content.js:1502-1531 | the init form and the standard form of one share normalise to the same key |
| UrlNormalizer.NormalizeStripped | browser-extension/src/content.js:1499 | the result depends on the URL only through its slash-stripped form |
| UrlNormalizer.NormalizeIdempotent | browser-extension/src/content.js:1494-1538 | normalising twice equals normalising once when the captured `pwd` holds no `/` |
| Registry.Submit | browser-extension/src/content.js:985-1010 | no change once submitted or without a success reply; otherwise the entry is stored as submitted under its raw url, nothing else changes, and processed entries stay processed |
| Registry.Publish | browser-extension/src/content.js:510-518 | after publishing, the key is processed, every processed entry stays processed, and only the key and the raw url can change |
| Settings.ConvertLegacy | browser-extension/src/content.js:162-171 | the converted table has the six platform keys; Lanzou and generic are on; another platform is off exactly when the legacy table says `false` |
| Settings.Upgrade | browser-extension/src/content.js:162-171 | `enabledTypes` is added only for a legacy table without one, and no other field changes |
| Settings.LoadSettings | browser-extension/src/content.js:151-180 | the defaults when nothing is stored or the stored `settings` is not an object; otherwise every stored field (after the legacy upgrade) keeps its stored value, and every default field the stored settings lack keeps its default value |
| Settings.LegacyAgrees | browser-extension/src/content.js:161-173 | after loading a legacy table, each converted platform is enabled exactly when the legacy table did not say `false` |
| Js.Spread | browser-extension/src/content.js:173 | `{...a, ...b}` has the keys of both, and the values of `b` win |
| Anchors.Hide | browser-extension/src/content.js:260-261 | the anchor is marked and hidden, and its href and buttons are unchanged |
| Anchors.ReplaceWithKey | browser-extension/src/content.js:455-519 | a marked anchor is left alone; a processed key only hides it; otherwise one button for the link is inserted before it, and the key becomes processed |
| Anchors.AnchorInfo | browser-extension/src/content.js:255-272 | the entry keeps the href, is keyed by its normalized URL, and takes the URL's password or else the guess for the normalized URL |
| Anchors.EnabledLink | browser-extension/src/content.js:251-253 | a result is a detected link of the href whose platform is enabled |
| Anchors.EnabledLinkIff | browser-extension/src/content.js:251-253 | a link is handled exactly when it is detected and its platform is enabled |
| Anchors.Found | browser-extension/src/content.js:251-272 | the entry for an anchor exists exactly when its link is handled, and it is keyed by the normalized href |
| Anchors.Visit | browser-extension/src/content.js:247-279 | an unhandled anchor is untouched; a handled one is marked and hidden; a processed key gives no button; otherwise exactly one new button; afterwards the key is processed, and no key other than it or the raw URL becomes processed |
| Anchors.Iteration | browser-extension/src/content.js:245-279 | one anchor's outcome: the href is kept, an already marked anchor is untouched, it gains at most one button, and exactly one when its key was new; the anchor's key is processed afterwards, and no other key except its raw URL becomes processed |
| Anchors.Loop | browser-extension/src/content.js:247-280 | every anchor gets its outcome, in order, and processed entries stay processed |
| Anchors.LoopGains | browser-extension/src/content.js:247-280 | every button added is new for its key, and no two added buttons share a key |
| Anchors.FoundAll | browser-extension/src/content.js:247-253 | the entries of all anchors, position by position |
| Anchors.FindAndProcessLinks | browser-extension/src/content.js:243-280 | every anchor gets its outcome; buttons appear only for keys not processed before, at most one per key on the page |
| Anchors.LoopProcessesKey | browser-extension/src/content.js:243-280 | after the loop the key of every unmarked anchor with an entry is processed |
| Anchors.LoopFirstGains | browser-extension/src/content.js:243-280 | an unmarked anchor whose key was new gains its button, unless an earlier unmarked anchor has that key as its key or its raw URL |
| Anchors.FindAndProcessLinksProcesses | browser-extension/src/content.js:243-280 | after the pass the normalized URL of every unmarked anchor holding an enabled link is processed |
| Anchors.FindAndProcessLinksFirstGains | browser-extension/src/content.js:243-280 | the first unmarked anchor of a link not processed before the pass gets the button for it, provided no earlier anchor's raw URL is that link's key |
| Anchors.FindAndProcessLinksOwn | browser-extension/src/content.js:243-280 | every button inserted before an anchor carries that anchor's own link |
| Anchors.PassKeepsNew | browser-extension/src/content.js:247-280 | one anchor's new button followed by the rest's new buttons keeps all buttons new and distinct |
| TextUrls.UrlMatchesOf | browser-extension/src/content.js:1347-1354 | each match object records the URL text found at `index` with its `length`, group 1 as the code and group 2 as the password |
| TextUrls.ScanBounds | browser-extension/src/content.js:1347-1354 | every match of the global scan lies inside the text |
| TextUrls.ExtractUrlsFromText | browser-extension/src/content.js:1342-1358 | one object per match; `text[index..index+length] == url`; indices strictly increasing and non-overlapping |
| TextUrls.ExtractHits | browser-extension/src/content.js:1342-1358 | each returned object is a match of the pattern at its index |
| TextUrls.ExtractCovers | browser-extension/src/content.js:1347-1354 | every offset where the pattern matches lies inside some returned match |
| TextUrls.Fresh | browser-extension/src/content.js:1375-1401 | a new entry keeps the URL, is keyed by its normalized URL, is neither processed nor submitted, and takes the URL's password or else the guess |
| TextUrls.ReplaceWith | browser-extension/src/content.js:1412-1492 | a detached node throws; a processed key leaves the registry alone; otherwise the key becomes processed; processed entries stay processed |
| TextUrls.ReplacedChildren | browser-extension/src/content.js:1419-1483 | as written, the node's text goes to the end of the parent, with a button for the link unless it was processed |
| TextUrls.AppendedTextMoves | browser-extension/src/content.js:1437-1478 | as written, the text after the replaced node comes before the node's text afterwards |
| TextUrls.AppendReordersExample | browser-extension/src/content.js:1437-1478 | `L<b>!</b>` reads `L!` before and `!L` after replacing `L` |
| TextUrls.ReplaceInPlace | browser-extension/src/content.js:1429-1483 | in place, the page text is unchanged, and an unprocessed link gets its button where the node was |
| TextUrls.MatchLoop | browser-extension/src/content.js:1373-1409 | the walk keeps the node placement; after a throw nothing changes |
| TextUrls.LoopKeepsKey | browser-extension/src/content.js:1373-1409 | a key processed before the walk stays processed |
| TextUrls.LoopProcessesMatch | browser-extension/src/content.js:1373-1409 | unless the walk throws, the key of every visited match ends up processed |
| TextUrls.ProcessTextMatches | browser-extension/src/content.js:1363-1410 | nothing happens without matches, on a detached node or for a disabled platform; otherwise, unless it throws, every match's key is processed |
| TextUrls.LoopThrows | browser-extension/src/content.js:1373-1437 | two unprocessed, different links in one node make the walk throw |
| TextUrls.SecondMatchThrows | browser-extension/src/content.js:1363-1437 | processTextMatches throws when the last two matches are different unprocessed links |
| TextUrls.TwoLinksExample | browser-extension/src/content.js:1363-1437 | a node holding two different Baidu links, with an empty registry, throws |
| TextUrls.Collect | browser-extension/src/content.js:1373-1402 | the matches chosen for buttons are at most n, are valid, and are in text order |
| TextUrls.CollectKeepsKey | browser-extension/src/content.js:1380-1402 | a key processed before the walk stays processed |
| TextUrls.CollectProcessesMatch | browser-extension/src/content.js:1373-1402 | the key of every visited match ends up processed |
| TextUrls.CollectFresh | browser-extension/src/content.js:1380-1383 | a chosen match's key was not processed before |
| TextUrls.CollectUnprocessed | browser-extension/src/content.js:1380-1383 | every chosen match was unprocessed when the walk reached it |
| TextUrls.CollectDistinct | browser-extension/src/content.js:1380-1402 | no two chosen matches share a key |
| TextUrls.CutsOf | browser-extension/src/content.js:1429-1483 | one cut per chosen match, carrying its entry |
| TextUrls.SelectedCuts | browser-extension/src/content.js:1429-1483 | the chosen matches lie in the text in increasing order, without overlap |
| TextUrls.SelectedAreNew | browser-extension/src/content.js:1380-1402 | the entries of the chosen matches are new and distinct buttons |
| TextUrls.SpliceMatches | browser-extension/src/content.js:1363-1492 | one split in place keeps the page text and splits exactly when the walk chose a match, and then puts the buttons of the chosen matches, one each and in text order, where the node was; they are new and distinct |
| TextUrls.ProcessTextMatchesInPlace | browser-extension/src/content.js:1363-1410 | the corrected pass keeps the page text, adds no TypeError, keeps processed entries, and does nothing in the three early-return cases |
| TextUrls.InPlaceProcessesAll | browser-extension/src/content.js:1363-1410 | in the corrected pass, every match's key ends up processed |
| Containers.CharAt | browser-extension/src/content.js:356-358 | `charAt`: the one-character string inside the text, `""` outside it |
| Containers.Filter | browser-extension/src/content.js:352-379 | a match is kept exactly when it is not quoted, the window around it holds no link, button or marker, and its text has no `<` or `>` |
| Containers.FilterLaid | browser-extension/src/content.js:352-379 | the kept matches still lie in the HTML in increasing, non-overlapping order |
| Containers.KeptMatches | browser-extension/src/content.js:347-379 | the kept matches are exactly those of the scan that pass the filter, laid out in order |
| Containers.CollectNoneKeeps | browser-extension/src/content.js:384-449 | when nothing is chosen, the registry is unchanged |
| Containers.RewriteAsWritten | browser-extension/src/content.js:384-449 | as written, the element is rewritten only when some match is chosen, shows the same text, and keeps exactly one button |
| Containers.PiecesOfMatch | browser-extension/src/content.js:414-427 | one rebuilt HTML shows the original text with the one button of the match |
| Containers.RewriteAll | browser-extension/src/content.js:384-449 | corrected: the same registry, the same text, and one new, distinct button per chosen match, in order |
| Containers.AsWrittenDropsButtons | browser-extension/src/content.js:384-449 | with two or more chosen matches, the as-written element shows one button, the corrected one all of them, and a processed link has no button |
| Containers.CollectSelectsTwo | browser-extension/src/content.js:393-411 | two different, unprocessed links are both chosen |
| Containers.TwoNewLinksOneButton | browser-extension/src/content.js:384-449 | for any two different canonical links in one element, one button is shown while both become processed |
| Containers.TwoLinksOneButton | browser-extension/src/content.js:384-449 | the element `https://pan.baidu.com/s/1aaaa https://pan.baidu.com/s/1bbbb` ends with one button and two processed links |
| Containers.CheckAndProcessPattern | browser-extension/src/content.js:330-450 | empty HTML or HTML with the script's markup changes nothing; a rewrite shows the same text with exactly one button |
| Containers.CheckAndProcessPatternSpliced | browser-extension/src/content.js:330-450 | corrected: the same early returns, and a rewrite shows the same text with exactly the buttons of the chosen matches, one each and in text order, all new and distinct |
| Containers.PatternProcessesAll | browser-extension/src/content.js:384-449 | every kept match's normalized URL is processed afterwards |
| Containers.Patterns | browser-extension/src/content.js:312-322 | as written: processed entries stay processed; no rewrite leaves the registry alone; a rewrite keeps the element's text and holds exactly one button |
| Containers.Tries | browser-extension/src/content.js:312-322 | the call for each pattern, position by position |
| Containers.FirstRewrite | browser-extension/src/content.js:312-322 | the result is the first call that rewrote, all earlier ones did not; none rewrote exactly when the result is empty |
| Containers.PatternsIsFirst | browser-extension/src/content.js:312-322 | the table loop equals "the first pattern whose call rewrites the element" |
| Containers.ContainerStep | browser-extension/src/content.js:291-323 | the element is marked checked; a checked, own or empty element changes nothing else; a rewrite keeps its text and holds exactly one button |
| Containers.ContainerLoop | browser-extension/src/content.js:287-324 | every element is marked checked, in order; only unchecked, foreign, non-empty elements are rewritten, each keeping its text with exactly one button |
| Containers.Containers | browser-extension/src/content.js:287-324 | the elements after a sweep, position by position |
| Containers.AllCheckedQuiet | browser-extension/src/content.js:289 | a sweep over checked elements rewrites nothing and leaves the registry alone |
| Containers.SweepOnce | browser-extension/src/content.js:287-324 | a second sweep over the swept elements rewrites nothing and changes no registry entry |
| Actions.WithPwdParam | browser-extension/src/content.js:857-858 | the url, then `&` if it has a `?` and `?` otherwise, then `pwd=` and the password |
| Actions.OpenNetDiskWithPassword | browser-extension/src/content.js:854-877 | a Baidu init, Aliyun or 123pan url without `pwd=` is opened with the password appended; anything else goes to autofill unchanged |
| Actions.PwdParamFirst | browser-extension/src/content.js:857-858 | the appended `pwd=` is the first one in the opened url |
| Actions.DirectCarriesPassword | browser-extension/src/content.js:854-877 | the password reads back as what follows the first `pwd=` of the opened url |
| Actions.DirectNotReapplied | browser-extension/src/content.js:854-877 | opening the opened url again appends no second password |
| Actions.ConsumePoints | browser-extension/src/content.js:836 | the balance drops by one and never goes below 0 |
| Actions.ConsumeTimesClamp | browser-extension/src/content.js:836 | n consumptions take n points, clamped at 0 |
| Observer.NodeStep | browser-extension/src/content.js:1031-1075 | the script's own nodes are skipped without a trace; a text node asks for a scan exactly when its trimmed text may hold a link |
| Observer.NodesStep | browser-extension/src/content.js:1032-1075 | the nodes ask for a scan exactly when one of them does; only foreign nodes are collected |
| Observer.MutationStep | browser-extension/src/content.js:1020-1097 | a mutation never collects one of the script's own nodes |
| Observer.Collect | browser-extension/src/content.js:1019-1099 | the batch never collects one of the script's own nodes |
| Observer.CollectScans | browser-extension/src/content.js:1019-1099 | the batch asks for a scan exactly when one of its mutations does |
| Observer.Unmarked | browser-extension/src/content.js:1105-1111 | a node is kept exactly when it is not a checked or processed element |
| Observer.React | browser-extension/src/content.js:1101-1146 | no reaction without a mutation that asks for one; scanned nodes are foreign and unmarked; a full rescan exactly when a scan is asked and nothing was collected |
| Observer.OwnBatchIgnored | browser-extension/src/content.js:1019-1099 | a batch made only of the script's own mutations is ignored |
| Observer.AttributesNeverScan | browser-extension/src/content.js:1022-1030 | attribute changes alone never cause a scan |
| Observer.StopsAtFirstScan | browser-extension/src/content.js:1098 | mutations after the first one that asks for a scan are never looked at |
| LocalStore.InitLocalStorage | browser-extension/src/utils/localStorageManager.js:17-42 | only missing keys are filled: empty lists, and a default user with 100 points |
| LocalStore.FindIndexFrom | browser-extension/src/utils/localStorageManager.js:67 | the first position at or after `from` with an equal url, or none when there is none |
| LocalStore.FindLinkByUrl | browser-extension/src/utils/localStorageManager.js:65-68 | null exactly when no link has the url; otherwise a stored link |
| LocalStore.SaveLink | browser-extension/src/utils/localStorageManager.js:73-104 | an existing url is updated in place, others and points unchanged; a new url is appended and earns 2 points; the history is untouched |
| LocalStore.SaveLinkKeepsUnique | browser-extension/src/utils/localStorageManager.js:76-96 | saving keeps the stored urls unique |
| LocalStore.SaveThenFind | browser-extension/src/utils/localStorageManager.js:65-104 | looking the url up after saving finds a link carrying the saved fields |
| LocalStore.AddPoints | browser-extension/src/utils/localStorageManager.js:186-198 | false without a user; otherwise the balance is `max(0, old + delta)`, returned, and other user fields are kept |
| LocalStore.GetPoints | browser-extension/src/utils/localStorageManager.js:203-205 | 0 without a user; otherwise the user's points |
| LocalStore.PushBounded | browser-extension/src/utils/localStorageManager.js:119-130 | the entry goes first, the old history follows, and the length grows by one up to the bound of 50 |
| LocalStore.UseLink | browser-extension/src/utils/localStorageManager.js:109-141 | false and no change for an unknown url; otherwise a new head entry, the history bounded by 50, and one point spent |
| LocalStore.GetHistory | browser-extension/src/utils/localStorageManager.js:146-155 | a prefix of the history of `limit` entries (JavaScript `slice` semantics for negative limits) |

## Left out

- The click and overlay UI, the messaging bridge, `chrome.*` calls and the network are not
  part of this model. The background's answers (`getSettings`, `submitLink`) are
  parameters. `async` ordering is flattened: each awaited reply is assumed to arrive
  before the next step.
- `evaluatePasswordLikelihood` (utils/password-extractor.js:89-117) is floating-point
  scoring that the scanner never calls.
- The DOM walkers are not modelled: `getTextNodes`, `querySelectorAll`, and the driver
  `findAndProcessTextUrls` that feeds each text node's matches to `processTextMatches`.
  The model starts from the matches of one node, one anchor list or one container list.
  Per-tag `querySelectorAll` order and nested containers are not modelled: a rewrite of
  an outer element is not seen by the inner elements of the same sweep.
- The `tempDiv` re-parse in `checkAndProcessPattern` is a parameter `tagged: string -> bool`.
  It answers whether the ±50-character window holds a link, a button or a checked marker.
  The `element.querySelector` early return is folded into the markup test on `innerHTML`.
- The `match[0]` test for `<` or `>` in `checkAndProcessPattern` is modelled, but it can
  never fire: every share-link match consists of URL characters only.
- `checkAndProcessPattern` never consults `isNetDiskTypeEnabled`; the model does the same.
- Button markup, icons, classes and the `userPoints` display text are abstracted to a
  button node carrying the link's entry.
- `toLowerCase` before the observer's `网盘` test is omitted: it applies only to that
  test, and lowering case cannot create or remove those two CJK characters.
- The `executeScript` autofill path of `openNetDiskWithPassword` is reduced to the
  `Autofill(url, password)` outcome.
- Local store:
  - `chrome.storage` failures and the `catch` branches that return `false`, `[]` or
    `null` are not modelled.
  - `getUserInfo` and `updateUserInfo` are folded into the `user` field of the store.
  - Ids and timestamps (`Date.now`, `Math.random`, `toISOString`) are parameters, and one
    `now` is used per operation.
  - A non-numeric `points` value is read as 0.
- JavaScript object identity is not modelled. `submitFoundLink` stores the same object
  under the raw url; the model stores an equal value.
- A string spread into an object (index keys) is not modelled in `Js.Spread`.
- UrlNormalizer.NormalizeIdempotent: requires that the captured `pwd` value holds no `/`.
  Without it idempotence fails, since stripping trailing slashes can shorten the password
  on the second pass: `https://pan.baidu.com/s/a?pwd=b/&` normalises to
  `https://pan.baidu.com/s/a?pwd=b/`, which normalises to `https://pan.baidu.com/s/a?pwd=b`.
- TextUrls.ProcessTextMatchesInPlace: its contract states the early returns, text
  preservation and registry monotonicity; the one-new-button-per-chosen-match property
  is stated on `TextUrls.SpliceMatches`, which it calls.
- The container sweep (`Containers.Patterns`, `ContainerStep`, `ContainerLoop`) runs
  `checkAndProcessPattern` as written, so a rewritten element holds one button. The
  corrected call, `Containers.CheckAndProcessPatternSpliced`, is stated for one pattern
  only and is not threaded through a sweep of its own; it leaves the registry exactly as
  the call as written does (`Containers.PatternSameRegistry`).

## Findings

| source | as written | input that shows it | evidently intended | confidence | as-written member | corrected member |
|---|---|---|---|---|---|---|
| browser-extension/src/content.js:1437-1478 | `replaceTextNodeUrl` removes the text node and appends the before-text, the button and the after-text at the END of the parent | `<p>L<b>!</b></p>` where `L` is a link: the paragraph reads `!L` afterwards instead of `L!` | the pieces take the text node's place (`insertBefore` / `replaceWith`) | high; not executed | TextUrls.AppendedTextMoves, TextUrls.AppendReordersExample | TextUrls.ReplaceInPlace |
| browser-extension/src/content.js:1373-1437 | `processTextMatches` walks the matches last to first and calls `replaceTextNodeUrl` on the same text node each time; after the first replacement the node is detached, so the second unprocessed link reaches `parentNode.removeChild` with a null `parentNode` and throws a TypeError | a text node holding `https://pan.baidu.com/s/1aaaa https://pan.baidu.com/s/1bbbb`, empty registry | every unprocessed link of the node gets its button, in one split of the node | high; not executed | TextUrls.LoopThrows, TextUrls.SecondMatchThrows, TextUrls.TwoLinksExample | TextUrls.ProcessTextMatchesInPlace, TextUrls.SpliceMatches |
| browser-extension/src/content.js:384-449 | `checkAndProcessPattern` rebuilds `innerHTML` from the ORIGINAL `html` for each unprocessed match, so each rebuild discards the previous button; all matches are marked processed but only the first (in text order) keeps a button | an element whose text is `https://pan.baidu.com/s/1aaaa https://pan.baidu.com/s/1bbbb`: one button, two processed links | one button per unprocessed link | high; not executed | Containers.CheckAndProcessPattern, Containers.RewriteAsWritten, Containers.AsWrittenDropsButtons, Containers.TwoLinksOneButton | Containers.CheckAndProcessPatternSpliced, Containers.RewriteAll |
