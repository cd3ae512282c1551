# gohome: a Dafny model of the dashboard's core

gohome is a Kubernetes homepage. It lists the cluster's ingresses as links
and shows a set of bookmarks read from a ConfigMap. This project models the
pure logic behind that page and proves its properties:

- **Ingress lister** (`internal/k8s.go`). Each ingress object is projected
  to an `IngressInfo`. Host and path come from the first routing rule. The
  protocol is `https` when some TLS entry lists that host. The URL is
  `protocol://host+path`. `GetVisibleIngresses` drops ingresses annotated
  `gohome.stringer.sh/hide: "true"` and records with an empty URL, then
  sorts by name. Without a client it returns five fixed demo records.
- **Bookmark loader** (`internal/config.go`). Every ConfigMap key
  `bookmark-<slug>` with a value `<url>|<category>` becomes a bookmark.
  The name is the slug with `-` turned into spaces, then title-cased. The
  bookmarks are sorted by (category, name). When there is no client or the
  ConfigMap cannot be read, two fixed defaults are used. A non-empty
  `title` key overrides the page title "Go Home".

The calls into the cluster are replaced by their outcomes, given as inputs:

- the ingress listing is a `Result<seq<Ingress>, string>`;
- each ConfigMap read is an `Option<map<string, string>>`;
- whether a client exists is a `Cluster` value or a `connected` flag.

`GetConfig` reads the ConfigMap twice, once for the bookmarks and once for
the title. The two reads are two independent inputs.

Modules:

| file | module | contents |
|---|---|---|
| wrappers.dfy | Wrappers | `Option`, `Result` |
| lex.dfy | Lex | Go's `<` on strings (lexicographic by character) and its order laws |
| text.dfy | Text | the `strings` functions used: TrimSpace, HasPrefix, TrimPrefix, ReplaceAll of one character, Split on one character, Title |
| sorting.dfy | Sorting | sortedness for a comparison; insertion sort as one valid `sort.Slice` outcome |
| ingresses.dfy | Ingresses, IngressLister | the ingress data model, extractIngressInfo, getDemoIngresses, GetVisibleIngresses |
| bookmarks.dfy | Bookmarks | the bookmark data model, parseBookmarkEntry, the (category, name) order |
| tally.dfy | Tally | counting what the entries of a map yield, independent of visiting order |
| loader.dfy | BookmarkLoader | parseBookmarks, getDefaultBookmarks, LoadBookmarks, GetConfig |

Design decisions:

- **Go string order.** Go compares strings byte by byte. On valid UTF-8
  that is the order of code points, so `Lex.Less` compares characters
  lexicographically, with a proper prefix sorting first.
- **Unstable sort and random map order.** `sort.Slice` is not stable and Go
  visits a map in an unspecified order. Outputs are therefore specified as
  "sorted, and holding each record exactly as often as the input yields
  it". Records that tie may come out in any order.
  - `GetVisibleIngresses` states this as a multiset equality with the
    shown projections.
  - `ParseBookmarks` is a method that picks the next key with `:|`, so it
    is proved for every visiting order. `ParsedFrom` states its result as
    per-bookmark counts over the ConfigMap's keys.
- **Splitting on `|`.** The value is split at every `|`. The category is
  the second piece, and pieces after a second `|` are dropped:
  `"u|c|x"` has category `"c"`. This follows `internal/config.go:93`,
  where the code uses `strings.Split`, not a split at the first `|` only.
- **Default bookmarks.** The defaults list News before Games, so they are
  not in (category, name) order (`DefaultBookmarksNotSorted`). Sortedness
  is promised only for bookmarks parsed from a ConfigMap: the defaults at
  `internal/config.go:144-155` are returned as listed, unsorted.
- **Empty ConfigMap.** A ConfigMap that is readable but has no `bookmark-`
  keys yields no bookmarks, not the defaults.
- **`strings.Title`.** A word starts at the beginning of the text or after
  a separator character, with Go's rule for separators:
  - ASCII letters, digits and `_` continue a word;
  - any other ASCII character is a separator;
  - beyond ASCII, only white space is a separator.

  Only ASCII `a`–`z` are upper-cased.
- **`strings.TrimSpace`.** Trims the white space of Go's `unicode.IsSpace`:
  tab, LF, VT, FF, CR, space, U+0085, U+00A0, U+1680, U+2000–U+200A,
  U+2028, U+2029, U+202F, U+205F and U+3000.

## Model

| member | source | states |
|---|---|---|
| Lex.LessCharacterization | internal/k8s.go:128-130 | a string is below another exactly when it is a proper prefix of it, or at the first differing position it has the smaller character |
| Lex.LessIrreflexive | internal/k8s.go:128-130 | no name sorts before itself |
| Lex.LessTransitive | internal/k8s.go:128-130 | the string order is transitive |
| Lex.LessTrichotomous | internal/k8s.go:128-130 | any two distinct strings are ordered one way or the other |
| Lex.LessAsymmetric | internal/k8s.go:128-130 | two strings never sort before each other |
| Lex.LessEqTotalOrder | internal/k8s.go:128-130 | "less or equal" on strings is a total order: total, antisymmetric, transitive |
| Lex.NotLessIsLessEq | internal/k8s.go:128-130 | "b is not below a" means exactly "a is below or equal to b" |
| Sorting.Insert | internal/k8s.go:128-130 | inserting into a sorted sequence keeps it sorted and adds exactly that element |
| Sorting.InsertionSort | internal/k8s.go:128-130 | the result is sorted by the comparison and is a permutation of the input |
| Ingresses.ListsHost | internal/k8s.go:156-161 | true exactly when some host of the list equals the rule host |
| Ingresses.TlsCovers | internal/k8s.go:153-163 | the protocol scan finds a match exactly when some TLS entry lists a host equal to the rule host |
| Ingresses.ExtractIngressInfo | internal/k8s.go:136-172 | name and namespace are copied; with no rules, host, path and URL are empty; otherwise host and path come from the first rule only; the URL is non-empty exactly when that rule's host is non-empty, and then it is protocol + "://" + host + path |
| Ingresses.NameLeTotalPreorder | internal/k8s.go:128-130 | ordering records by name is total and transitive, so sorting by it is well defined up to ties |
| Ingresses.SortedByNameMeansNondecreasing | internal/k8s.go:127-130 | in the sorted output, names never decrease |
| IngressLister.ShownProjections | internal/k8s.go:112-125 | the loop keeps at most one record per listed ingress |
| IngressLister.ShownProjectionsMembers | internal/k8s.go:113-125 | a record is kept exactly when some listed ingress is not hidden, has a URL and projects to it |
| Ingresses.DemoIngresses | internal/k8s.go:175-212 | five demo records, each with a non-empty host and the URL `https://` + host + path that a TLS-covered rule would give |
| IngressLister.DemoIngressesSorted | internal/k8s.go:175-212 | the demo list has five records, already sorted by name |
| IngressLister.DemoIngressesUseHttps | internal/k8s.go:175-212 | every demo record has a non-empty `https://` URL |
| IngressLister.GetVisibleIngresses | internal/k8s.go:101-133 | no client gives the demo records; a failed listing gives the wrapped error "failed to list ingresses: …"; a successful listing gives records sorted by name that are a permutation of the projections of the shown ingresses |
| IngressLister.ListedIffShown | internal/k8s.go:113-125 | after a successful listing, a record is in the output exactly when it is the projection of an ingress that is not hidden and has a URL; every output record has a URL |
| IngressLister.HiddenIngressNeverListed | internal/k8s.go:113-118 | when no two listed objects share a name and namespace, no record of an ingress annotated hide = "true" appears |
| IngressLister.ShownExactlyOnce | internal/k8s.go:113-125 | when no two listed objects share a name and namespace, each shown ingress contributes exactly one record to the loop's result |
| IngressLister.ShownListedExactlyOnce | internal/k8s.go:112-132 | the same for the sorted output of GetVisibleIngresses |
| Text.TrimSpace | internal/config.go:99 | the result neither starts nor ends with white space and is no longer than the input |
| Text.TrimSpaceIsSlice | internal/config.go:99 | the result is a contiguous part of the input with only white space before and after it |
| Text.TrimSpaceOfTrimmed | internal/config.go:99 | text already free of outer white space is unchanged |
| Text.TrimSpaceIdempotent | internal/config.go:99 | trimming twice is the same as trimming once |
| Text.TrimSpaceKeepsOut | internal/config.go:99 | trimming never introduces a character the input does not contain |
| Text.TrimPrefix | internal/config.go:89 | with the prefix present, the prefix followed by the result is the input; otherwise the input is unchanged |
| Text.ReplaceChar | internal/config.go:90 | same length; each `from` becomes `to` and every other character stays |
| Text.ReplaceJoined | internal/config.go:90 | two `-`-free pieces joined by `-` come out joined by a space |
| Text.Split | internal/config.go:93 | there is always at least one piece, and no piece contains the separator |
| Text.JoinSplit | internal/config.go:93 | joining the pieces with the separator gives the input back |
| Text.SplitJoin | internal/config.go:93 | splitting the join of separator-free pieces gives the pieces back |
| Text.SplitAfterField | internal/config.go:93 | a separator-free field followed by the separator is the first piece, and the rest splits independently |
| Text.SplitWithoutSeparator | internal/config.go:93 | text without the separator splits into itself alone |
| Text.ToTitle | internal/config.go:91 | an ASCII lower-case letter becomes its upper-case letter; any other character is unchanged |
| Text.TitleAfter | internal/config.go:91 | each character is upper-cased exactly when the character before it, or the given previous one, is a separator; the length is kept |
| Text.Title | internal/config.go:91 | the first character, and each character after a separator, is upper-cased; every other character is unchanged; the length is kept |
| Text.TitleOfTwoWords | internal/config.go:91 | in two lower-case words joined by a space, only the first letter of each word is upper-cased |
| Bookmarks.BookmarkName | internal/config.go:88-91 | the name contains no `-`, and is the key's length minus the prefix when the key has the prefix |
| Bookmarks.BookmarkNameChars | internal/config.go:88-91 | character by character: the name is the key after the `bookmark-` prefix, with each `-` shown as a space and each character at the start or after a separator title-cased |
| Bookmarks.ParseBookmarkEntry | internal/config.go:87-111 | the name comes from the key; the category is never empty; the URL is trimmed and contains no `|`; a value without `|` gives its trimmed self as URL and category "General" |
| Bookmarks.ParseFields | internal/config.go:93-108 | `url|category` followed by nothing or by more `|` fields gives the trimmed URL and the trimmed category ("General" if blank); further fields are dropped |
| Bookmarks.ParseUrlOnly | internal/config.go:98-108 | the example value "https://a.com", a URL alone, keeps the URL and gets the category "General" |
| Bookmarks.HackerNewsName | internal/config.go:88-91 | the key "bookmark-hacker-news" is shown as "Hacker News" |
| Bookmarks.HackerNewsSpaced | internal/config.go:89-90 | removing the prefix of "bookmark-hacker-news" and replacing `-` gives "hacker news" |
| Bookmarks.HackerNewsTitled | internal/config.go:91 | "hacker news" title-cases to "Hacker News" |
| Bookmarks.BookmarkLeByKey | internal/config.go:76-81 | one bookmark sorts no later than another exactly when its (category, name) pair is lexicographically no greater |
| Bookmarks.BookmarkLeTotalPreorder | internal/config.go:76-81 | the bookmark comparison is total and transitive |
| Bookmarks.SortedBookmarksOrder | internal/config.go:75-81 | in sorted bookmarks, categories never decrease, nor do names within one category |
| Tally.CountsMatchAddKey | internal/config.go:66-73 | visiting one more key and appending what it yields keeps every bookmark's count equal to the number of visited keys yielding it |
| Tally.CountsMatchMembers | internal/config.go:66-73 | a value is in the result exactly when some visited key yields it |
| Tally.CountsMatchUnique | internal/config.go:66-73 | two results matching the same counts are permutations of each other |
| Tally.CountsMatchPermutation | internal/config.go:75-81 | reordering a result that matches the counts keeps it matching |
| BookmarkLoader.EntryOf | internal/config.go:67-71 | only `bookmark-` keys yield a bookmark; a yielded bookmark is named after its key, has a non-empty trimmed URL free of `|` and a non-empty category; a `bookmark-` key whose value has no `|` and a non-blank URL yields that trimmed URL with category "General" |
| BookmarkLoader.YieldingAreBookmarkKeys | internal/config.go:66-73 | no more bookmarks are kept than there are `bookmark-` keys |
| BookmarkLoader.VisitKey | internal/config.go:67-72 | one loop iteration appends exactly what the key yields; an appended bookmark has a non-empty URL and category and comes from a `bookmark-` key |
| BookmarkLoader.CollectBookmarks | internal/config.go:62-73 | in any visiting order, the collected bookmarks hold each bookmark as often as keys yield it; each has a non-empty URL and category |
| BookmarkLoader.ParseBookmarks | internal/config.go:61-84 | the result is sorted by (category, name), holds each bookmark as often as keys yield it, has at most as many entries as there are `bookmark-` keys, and every entry has a non-empty URL and category |
| BookmarkLoader.ParsedMembers | internal/config.go:66-73 | a bookmark is in a parse exactly when some `bookmark-` key parses to it with a non-empty URL |
| BookmarkLoader.ParsesArePermutations | internal/config.go:66-81 | any two visiting orders give the same bookmarks, equally often |
| BookmarkLoader.DefaultBookmarks | internal/config.go:143-156 | two default bookmarks, each with a non-empty URL and category |
| BookmarkLoader.DefaultBookmarksNotSorted | internal/config.go:143-156 | the defaults are not in (category, name) order |
| BookmarkLoader.LoadBookmarks | internal/config.go:45-58 | never fails; no client or a failed read gives exactly the defaults; otherwise the parse of the data, which is empty when there is no `bookmark-` key |
| BookmarkLoader.ConfigTitle | internal/config.go:120-134 | the title is never empty; it is the `title` entry when there is a client, the second read succeeds and the entry is non-empty; any other title is "Go Home", including in demo mode |
| BookmarkLoader.GetConfig | internal/config.go:114-140 | never fails; the bookmarks follow the first read as in LoadBookmarks; the title follows the second read as in ConfigTitle |

## Left out

- `NewK8sClient` and `loadKubeConfig` (`internal/k8s.go`): environment variables, file-system checks and client-go configuration. Only whether a client exists is modelled.
- The cluster calls `Ingresses("").List` and `ConfigMaps(...).Get`: only their outcomes are modelled, as inputs.
- `internal/server.go` and `cmd/main.go`: HTTP handlers, template rendering, request timeouts, flag and environment parsing, process exit.
- Logging calls throughout.
- The error branch of GetConfig (`internal/config.go:116-118`): LoadBookmarks never fails, so the branch cannot be taken. The model proves that LoadBookmarks succeeds and omits the branch.
- Go's nil versus empty slices: an empty result is modelled as `[]`, whether Go would return a nil or an empty slice.
- Text.Title: upper-cases ASCII letters only. Go's `strings.Title` also maps non-ASCII letters to their Unicode title case; the model leaves them unchanged. Word boundaries follow Go's rule in full.
- Text.TrimSpace: works on code points. Go works on UTF-8 bytes and treats invalid bytes as U+FFFD, which is not white space, so the results agree on valid text.
- IngressLister.DemoIngressesUseHttps: states only that each demo URL is non-empty and starts with `https://`; the URL's shape (`https://` + host + path) is stated by `Ingresses.DemoIngresses`, the literal host names only in its body.
- Ingresses.DemoIngresses: states the count and the URL shape of the demo records, not their literal names and hosts (the name order is stated by `IngressLister.DemoIngressesSorted`).
- IngressLister.HiddenIngressNeverListed: assumes that no two listed objects share a name and namespace, as Kubernetes guarantees. Without this assumption, another object's record could look identical.
