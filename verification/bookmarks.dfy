/**
 * One bookmark entry of internal/config.go: a ConfigMap entry
 * `bookmark-<slug>: "<url>|<category>"` parsed into a bookmark, and the
 * (category, name) order the loader sorts bookmarks by.
 */
module Bookmarks {
  import opened Text
  import Lex
  import opened Sorting

  /** Prefix that marks a ConfigMap key as a bookmark. */
  const BookmarkPrefix: string := "bookmark-"
  /** Category given to a bookmark whose value names none. */
  const DefaultCategory: string := "General"

  /** Bookmark: one link on the page. */
  datatype Bookmark = Bookmark(name: string, url: string, category: string)

  /**
   * The display name of a key: the `bookmark-` prefix removed, every `-`
   * turned into a space, then title-cased.
   */
  function BookmarkName(key: string): (name: string)
    ensures '-' !in name
    ensures HasPrefix(key, BookmarkPrefix) ==> |name| == |key| - |BookmarkPrefix|
    ensures !HasPrefix(key, BookmarkPrefix) ==> |name| == |key|
  {
    var spaced := ReplaceChar(TrimPrefix(key, BookmarkPrefix), '-', ' ');
    var name := Title(spaced);
    assert forall i :: 0 <= i < |name| ==> name[i] != '-' by {
      forall i | 0 <= i < |name| ensures name[i] != '-' {
        assert spaced[i] != '-';
        if i == 0 {
          assert name[i] == ToTitle(spaced[i]);
        } else {
          assert name[i] == if IsSeparator(spaced[i - 1]) then ToTitle(spaced[i]) else spaced[i];
        }
      }
    }
    name
  }

  /** How many leading characters of `key` the name drops: the prefix when present. */
  function NameStart(key: string): (p: nat)
    ensures p <= |key|
    ensures p > 0 <==> HasPrefix(key, BookmarkPrefix)
  {
    if HasPrefix(key, BookmarkPrefix) then |BookmarkPrefix| else 0
  }

  /**
   * Each character of the name, read off the key: with the prefix dropped,
   * a `-` shows as a space, and a character at the start of the name or
   * after a separator is title-cased; every other character is kept.
   */
  lemma BookmarkNameChars(key: string, i: int)
    requires 0 <= i < |BookmarkName(key)|
    ensures NameStart(key) + i < |key|
    ensures var c := key[NameStart(key) + i];
            BookmarkName(key)[i] ==
              if c == '-' then ' '
              else if i == 0 || IsSeparator(key[NameStart(key) + i - 1]) then ToTitle(c)
              else c
  {
    var p := NameStart(key);
    var rest := TrimPrefix(key, BookmarkPrefix);
    assert rest == key[p..];
    var spaced := ReplaceChar(rest, '-', ' ');
    assert spaced[i] == if key[p + i] == '-' then ' ' else key[p + i];
    if i > 0 {
      assert spaced[i - 1] == if key[p + i - 1] == '-' then ' ' else key[p + i - 1];
    }
  }

  /**
   * parseBookmarkEntry: the value is split at every `|`; the URL is the first
   * piece and the category the second, both trimmed; further pieces are
   * ignored and a missing or blank category becomes "General".
   */
  function ParseBookmarkEntry(key: string, value: string): (b: Bookmark)
    ensures b.name == BookmarkName(key)
    ensures b.category != ""
    ensures Trimmed(b.url) && '|' !in b.url
    ensures '|' !in value ==> b.url == TrimSpace(value) && b.category == DefaultCategory
  {
    var parts := Split(value, '|');
    assert '|' !in value ==> parts == [value] by {
      if '|' !in value {
        SplitWithoutSeparator(value, '|');
      }
    }
    TrimSpaceKeepsOut(parts[0], '|');
    var url := TrimSpace(parts[0]);
    var category := if |parts| >= 2 then TrimSpace(parts[1]) else "";
    Bookmark(BookmarkName(key), url, if category == "" then DefaultCategory else category)
  }

  /**
   * Reading a value back from its fields: with a URL field and a category
   * field free of `|`, followed by nothing or by further `|`-fields, the entry
   * has the trimmed URL and the trimmed category ("General" if blank).
   */
  lemma ParseFields(key: string, url: string, category: string, tail: string)
    requires '|' !in url && '|' !in category
    requires tail == [] || tail[0] == '|'
    ensures ParseBookmarkEntry(key, url + "|" + category + tail).url == TrimSpace(url)
    ensures ParseBookmarkEntry(key, url + "|" + category + tail).category ==
              if TrimSpace(category) == "" then DefaultCategory else TrimSpace(category)
  {
    var value := url + "|" + category + tail;
    assert value == url + ['|'] + (category + tail);
    SplitAfterField(url, '|', category + tail);
    if tail == [] {
      assert category + tail == category;
      SplitWithoutSeparator(category, '|');
    } else {
      assert category + tail == category + ['|'] + tail[1..];
      SplitAfterField(category, '|', tail[1..]);
    }
  }

  /** A value with a URL alone gets the default category. */
  lemma ParseUrlOnly()
    ensures ParseBookmarkEntry("bookmark-a", "https://a.com").url == "https://a.com"
    ensures ParseBookmarkEntry("bookmark-a", "https://a.com").category == DefaultCategory
  {
    assert '|' !in "https://a.com";
    TrimSpaceOfTrimmed("https://a.com");
  }

  /** The key "bookmark-hacker-news" is shown as "Hacker News". */
  lemma HackerNewsName()
    ensures BookmarkName("bookmark-hacker-news") == "Hacker News"
  {
    HackerNewsSpaced();
    HackerNewsTitled();
  }

  lemma HackerNewsSpaced()
    ensures ReplaceChar(TrimPrefix("bookmark-hacker-news", BookmarkPrefix), '-', ' ') == "hacker news"
  {
    var key := "bookmark-hacker-news";
    assert key[..|BookmarkPrefix|] == BookmarkPrefix;
    assert TrimPrefix(key, BookmarkPrefix) == "hacker" + ['-'] + "news";
    ReplaceJoined("hacker", "news", '-', ' ');
  }

  lemma HackerNewsTitled()
    ensures Title("hacker news") == "Hacker News"
  {
    assert "hacker" + " " + "news" == "hacker news";
    TitleOfTwoWords("hacker", "news");
    assert [ToTitle('h')] + "acker" + " " + [ToTitle('n')] + "ews" == "Hacker News";
  }

  /** Go's sort.Slice comparison for bookmarks: by category, and by name within a category. */
  predicate BookmarkLess(a: Bookmark, b: Bookmark) {
    if a.category == b.category then Lex.Less(a.name, b.name) else Lex.Less(a.category, b.category)
  }

  /** "Sorts no later than" for BookmarkLess. */
  predicate BookmarkLe(a: Bookmark, b: Bookmark) {
    !BookmarkLess(b, a)
  }

  /** BookmarkLe is the order on (category, name) pairs, compared lexicographically. */
  lemma BookmarkLeByKey(a: Bookmark, b: Bookmark)
    ensures BookmarkLe(a, b) <==>
              Lex.Less(a.category, b.category) || (a.category == b.category && Lex.LessEq(a.name, b.name))
  {
    Lex.NotLessIsLessEq(a.name, b.name);
    Lex.NotLessIsLessEq(a.category, b.category);
    Lex.LessIrreflexive(a.category);
    if Lex.Less(a.category, b.category) {
      Lex.LessAsymmetric(a.category, b.category);
    }
  }

  lemma BookmarkLeTotalPreorder()
    ensures TotalPreorder(BookmarkLe)
  {
    forall a: Bookmark, b: Bookmark
      ensures BookmarkLe(a, b) || BookmarkLe(b, a)
    {
      BookmarkLeByKey(a, b);
      BookmarkLeByKey(b, a);
      Lex.LessTrichotomous(a.category, b.category);
      Lex.LessEqTotalOrder(a.name, b.name, b.name);
    }
    forall a: Bookmark, b: Bookmark, c: Bookmark | BookmarkLe(a, b) && BookmarkLe(b, c)
      ensures BookmarkLe(a, c)
    {
      BookmarkLeByKey(a, b);
      BookmarkLeByKey(b, c);
      BookmarkLeByKey(a, c);
      if Lex.Less(a.category, b.category) && Lex.Less(b.category, c.category) {
        Lex.LessTransitive(a.category, b.category, c.category);
      }
      Lex.LessEqTotalOrder(a.name, b.name, c.name);
    }
  }

  /** In a sequence sorted by BookmarkLe, categories never decrease, nor do names within a category. */
  lemma SortedBookmarksOrder(s: seq<Bookmark>, i: int, j: int)
    requires SortedBy(s, BookmarkLe)
    requires 0 <= i < j < |s|
    ensures Lex.LessEq(s[i].category, s[j].category)
    ensures s[i].category == s[j].category ==> Lex.LessEq(s[i].name, s[j].name)
  {
    assert BookmarkLe(s[i], s[j]);
    BookmarkLeByKey(s[i], s[j]);
    Lex.LessIrreflexive(s[i].category);
  }
}
