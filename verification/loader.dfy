/**
 * LoadBookmarks, parseBookmarks and GetConfig of internal/config.go. Each
 * ConfigMap Get call is replaced by its outcome: `None` when the call fails,
 * `Some(data)` with the ConfigMap's data when it succeeds.
 */
module BookmarkLoader {
  import opened Wrappers
  import Lex
  import opened Text
  import opened Sorting
  import opened Tally
  import opened Bookmarks

  /** Page title unless the ConfigMap overrides it. */
  const DefaultTitle: string := "Go Home"
  /** ConfigMap key holding the title override. */
  const TitleKey: string := "title"

  /** Config: everything the page needs besides the ingresses. */
  datatype Config = Config(bookmarks: seq<Bookmark>, title: string)

  /**
   * What one ConfigMap entry contributes to parseBookmarks: the parsed entry
   * when the key has the bookmark prefix and the parsed URL is not empty.
   */
  function EntryOf(key: string, value: string): (r: Option<Bookmark>)
    ensures r.Some? ==> HasPrefix(key, BookmarkPrefix)
    ensures r.Some? ==> r.value.name == BookmarkName(key)
    ensures r.Some? ==> r.value.url != "" && Trimmed(r.value.url) && '|' !in r.value.url
    ensures r.Some? ==> r.value.category != ""
    ensures HasPrefix(key, BookmarkPrefix) && '|' !in value && TrimSpace(value) != "" ==>
              r == Some(Bookmark(BookmarkName(key), TrimSpace(value), DefaultCategory))
  {
    if HasPrefix(key, BookmarkPrefix) then
      var b := ParseBookmarkEntry(key, value);
      if b.url != "" then Some(b) else None
    else None
  }

  /** The keys of `data` that carry the bookmark prefix. */
  function BookmarkKeys(data: map<string, string>): set<string> {
    set k | k in data && HasPrefix(k, BookmarkPrefix)
  }

  /** Only keys with the bookmark prefix yield a bookmark. */
  lemma YieldingAreBookmarkKeys(data: map<string, string>)
    ensures |Yielding(data, data.Keys, EntryOf)| <= |BookmarkKeys(data)|
  {
    SubsetCardinality(Yielding(data, data.Keys, EntryOf), BookmarkKeys(data));
  }

  /**
   * `r` is a parse of `data`: sorted by (category, name), and holding each
   * bookmark exactly as often as ConfigMap keys yield it.
   */
  ghost predicate ParsedFrom(data: map<string, string>, r: seq<Bookmark>) {
    SortedBy(r, BookmarkLe) && CountsMatch(data, data.Keys, EntryOf, r)
  }

  /**
   * One iteration of parseBookmarks' loop: appends the entry of `key` when
   * the key has the bookmark prefix and the parsed URL is not empty.
   */
  method VisitKey(data: map<string, string>, key: string, found: seq<Bookmark>) returns (r: seq<Bookmark>)
    requires key in data
    ensures r == found + Contribution(data, key, EntryOf)
    ensures |r| <= |found| + 1
    ensures forall b :: b in r && b !in found ==> b.url != "" && b.category != "" && HasPrefix(key, BookmarkPrefix)
  {
    r := found;
    if HasPrefix(key, BookmarkPrefix) {
      var b := ParseBookmarkEntry(key, data[key]);
      if b.url != "" {
        r := found + [b];
      }
    }
  }

  /**
   * The loop of parseBookmarks: visits the keys in an arbitrary order (Go's
   * map order is unspecified) and appends the entry of every `bookmark-` key
   * whose parsed URL is not empty.
   */
  method CollectBookmarks(data: map<string, string>) returns (found: seq<Bookmark>)
    ensures CountsMatch(data, data.Keys, EntryOf, found)
    ensures forall b :: b in found ==> b.url != "" && b.category != ""
  {
    var remaining := data.Keys;
    found := [];
    while remaining != {}
      invariant remaining <= data.Keys
      invariant CountsMatch(data, data.Keys - remaining, EntryOf, found)
      invariant forall b :: b in found ==> b.url != "" && b.category != ""
      decreases remaining
    {
      var key :| key in remaining;
      CountsMatchAddKey(data, data.Keys - remaining, key, EntryOf, found);
      found := VisitKey(data, key, found);
      assert data.Keys - (remaining - {key}) == (data.Keys - remaining) + {key};
      remaining := remaining - {key};
    }
    assert data.Keys - remaining == data.Keys;
  }

  /**
   * parseBookmarks: collects the entries of the ConfigMap's data and sorts
   * them by (category, name).
   */
  method ParseBookmarks(data: map<string, string>) returns (r: seq<Bookmark>)
    ensures ParsedFrom(data, r)
    ensures |r| <= |BookmarkKeys(data)|
    ensures forall b :: b in r ==> b.url != "" && b.category != ""
  {
    var found := CollectBookmarks(data);
    YieldingAreBookmarkKeys(data);
    BookmarkLeTotalPreorder();
    r := InsertionSort(found, BookmarkLe);
    CountsMatchPermutation(data, data.Keys, EntryOf, found, r);
    forall b | b in r ensures b in found {
      assert b in multiset(r);
    }
  }

  /** A parse holds exactly the entries that some `bookmark-` key with a non-empty URL yields. */
  lemma ParsedMembers(data: map<string, string>, r: seq<Bookmark>, b: Bookmark)
    requires ParsedFrom(data, r)
    ensures b in r <==> exists k :: k in data && HasPrefix(k, BookmarkPrefix) && b.url != "" && ParseBookmarkEntry(k, data[k]) == b
  {
    CountsMatchMembers(data, data.Keys, EntryOf, r, b);
    if exists k :: k in data && HasPrefix(k, BookmarkPrefix) && b.url != "" && ParseBookmarkEntry(k, data[k]) == b {
      var k :| k in data && HasPrefix(k, BookmarkPrefix) && b.url != "" && ParseBookmarkEntry(k, data[k]) == b;
      assert EntryOf(k, data[k]) == Some(b);
    }
  }

  /** Whatever order the keys are visited in, two parses of the same data hold the same bookmarks equally often. */
  lemma ParsesArePermutations(data: map<string, string>, a: seq<Bookmark>, b: seq<Bookmark>)
    requires ParsedFrom(data, a) && ParsedFrom(data, b)
    ensures multiset(a) == multiset(b)
  {
    CountsMatchUnique(data, data.Keys, EntryOf, a, b);
  }

  /** getDefaultBookmarks: the example bookmarks used when the ConfigMap cannot be read. */
  function DefaultBookmarks(): (r: seq<Bookmark>)
    ensures |r| == 2
    ensures forall b :: b in r ==> b.url != "" && b.category != ""
  {
    [ Bookmark("Hacker News", "https://news.ycombinator.com", "News"),
      Bookmark("Bracket City", "https://www.theatlantic.com/games/bracket-city/", "Games") ]
  }

  /** The defaults are listed News before Games, so unlike a parse they are not sorted by category. */
  lemma DefaultBookmarksNotSorted()
    ensures !SortedBy(DefaultBookmarks(), BookmarkLe)
  {
    var d := DefaultBookmarks();
    assert d[1].category[0] < d[0].category[0];
    assert Lex.Less(d[1].category, d[0].category);
    Lex.LessAsymmetric(d[1].category, d[0].category);
    assert !BookmarkLe(d[0], d[1]);
  }

  /**
   * LoadBookmarks. `connected` says whether a Kubernetes client exists;
   * `fetched` is the outcome of reading the ConfigMap: `None` when the Get
   * call fails, otherwise the ConfigMap's data. Never fails.
   */
  method LoadBookmarks(connected: bool, fetched: Option<map<string, string>>) returns (r: Result<seq<Bookmark>, string>)
    ensures r.Success?
    ensures !connected || fetched.None? ==> r.value == DefaultBookmarks()
    ensures connected && fetched.Some? ==> ParsedFrom(fetched.value, r.value)
    ensures connected && fetched.Some? && BookmarkKeys(fetched.value) == {} ==> r.value == []
    ensures forall b :: b in r.value ==> b.url != "" && b.category != ""
  {
    if !connected {
      return Success(DefaultBookmarks());
    }
    if fetched.None? {
      return Success(DefaultBookmarks());
    }
    var parsed := ParseBookmarks(fetched.value);
    return Success(parsed);
  }

  /**
   * The title part of GetConfig: the ConfigMap's `title` entry when the
   * client exists, the second Get succeeds and the entry is present and not
   * empty; "Go Home" otherwise.
   */
  function ConfigTitle(connected: bool, fetched: Option<map<string, string>>): (title: string)
    ensures title != ""
    ensures title != DefaultTitle ==> connected && fetched.Some? && TitleKey in fetched.value && title == fetched.value[TitleKey]
    ensures connected && fetched.Some? && TitleKey in fetched.value && fetched.value[TitleKey] != "" ==> title == fetched.value[TitleKey]
    ensures !connected || fetched.None? || TitleKey !in fetched.value ==> title == DefaultTitle
  {
    var title := DefaultTitle;
    if connected then
      match fetched
      case Some(data) =>
        if TitleKey in data && data[TitleKey] != "" then data[TitleKey] else title
      case None => title
    else title
  }

  /**
   * GetConfig: loads the bookmarks from a first read of the ConfigMap and
   * the title from a second, independent read (`first` and `second` are the
   * two outcomes). Never fails.
   */
  method GetConfig(connected: bool, first: Option<map<string, string>>, second: Option<map<string, string>>) returns (r: Result<Config, string>)
    ensures r.Success?
    ensures !connected || first.None? ==> r.value.bookmarks == DefaultBookmarks()
    ensures connected && first.Some? ==> ParsedFrom(first.value, r.value.bookmarks)
    ensures r.value.title != ""
    ensures r.value.title != DefaultTitle ==> connected && second.Some? && TitleKey in second.value && r.value.title == second.value[TitleKey]
    ensures connected && second.Some? && TitleKey in second.value && second.value[TitleKey] != "" ==> r.value.title == second.value[TitleKey]
  {
    var loaded := LoadBookmarks(connected, first);
    var title := ConfigTitle(connected, second);
    return Success(Config(loaded.value, title));
  }
}
