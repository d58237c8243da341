/** The folder-listing filter of the NextCloud client: which resource paths
    of a depth-1 PROPFIND answer are reported as the folder's contents. The
    answer is given by its keys, in the order the transport yields them. */
module FolderListing {
  import opened PhpStrings

  /** The loop's self-entry test: removing every occurrence of `needle` (the
      user's base path followed by the listed folder) from `key` leaves
      exactly "//". Only a key of two characters or more can pass it; with
      an empty needle, which removes nothing, only "//" itself does. */
  predicate IsSelfEntry(needle: string, key: string): (b: bool)
    ensures b ==> 2 <= |key|
    ensures needle == [] ==> (b <==> key == "//")
  {
    StrReplace(needle, "", key) == "//"
  }

  /** A key in which the needle does not occur is a self-entry only when it
      is "//" itself: the test removes nothing from it. */
  lemma SelfEntryWithoutNeedle(needle: string, key: string)
    requires !Contains(key, needle)
    ensures IsSelfEntry(needle, key) <==> key == "//"
  {
    StrReplaceAbsent(needle, "", key);
  }

  /** The keys the listing keeps, in their original order. */
  function FolderEntries(needle: string, keys: seq<string>): (r: seq<string>)
    ensures |r| <= |keys|
    decreases |keys|
  {
    if keys == [] then []
    else
      var last := keys[|keys| - 1];
      FolderEntries(needle, keys[..|keys| - 1]) + (if IsSelfEntry(needle, last) then [] else [last])
  }

  /** `a` is `b` with some elements left out, the rest in order. */
  predicate IsSubsequence<T(==)>(a: seq<T>, b: seq<T>)
    decreases |b|
  {
    a == [] ||
    (b != [] &&
     (IsSubsequence(a, b[..|b| - 1]) ||
      (a[|a| - 1] == b[|b| - 1] && IsSubsequence(a[..|a| - 1], b[..|b| - 1]))))
  }

  /** No element occurs twice. */
  predicate Distinct<T(==)>(s: seq<T>)
  {
    forall i, j :: 0 <= i < j < |s| ==> s[i] != s[j]
  }

  /** Filtering a concatenation filters each part. */
  lemma {:induction false} FolderEntriesAppend(needle: string, a: seq<string>, b: seq<string>)
    ensures FolderEntries(needle, a + b) == FolderEntries(needle, a) + FolderEntries(needle, b)
    decreases |b|
  {
    if b == [] {
      assert a + b == a;
    } else {
      var ab := a + b;
      assert ab[..|ab| - 1] == a + b[..|b| - 1];
      assert ab[|ab| - 1] == b[|b| - 1];
      FolderEntriesAppend(needle, a, b[..|b| - 1]);
    }
  }

  /** A self-entry is never kept; any other key is kept exactly as often as
      the answer holds it. */
  lemma {:induction false} FolderEntriesCount(needle: string, keys: seq<string>, x: string)
    ensures multiset(FolderEntries(needle, keys))[x] ==
            if IsSelfEntry(needle, x) then 0 else multiset(keys)[x]
    decreases |keys|
  {
    if keys != [] {
      var init, last := keys[..|keys| - 1], keys[|keys| - 1];
      assert keys == init + [last];
      FolderEntriesCount(needle, init, x);
    }
  }

  /** A key is listed if and only if the answer holds it and it is not a self-entry. */
  lemma FolderEntriesMembership(needle: string, keys: seq<string>, x: string)
    ensures x in FolderEntries(needle, keys) <==> x in keys && !IsSelfEntry(needle, x)
  {
    FolderEntriesCount(needle, keys, x);
  }

  /** The listing keeps the transport's order. */
  lemma {:induction false} FolderEntriesSubsequence(needle: string, keys: seq<string>)
    ensures IsSubsequence(FolderEntries(needle, keys), keys)
    decreases |keys|
  {
    if keys != [] {
      var init, last := keys[..|keys| - 1], keys[|keys| - 1];
      var r := FolderEntries(needle, keys);
      FolderEntriesSubsequence(needle, init);
      if IsSelfEntry(needle, last) {
        assert r == FolderEntries(needle, init);
      } else {
        assert r[..|r| - 1] == FolderEntries(needle, init) && r[|r| - 1] == last;
      }
    }
  }

  /** Distinct resource paths give a listing with each path at most once. */
  lemma {:induction false} FolderEntriesDistinct(needle: string, keys: seq<string>)
    requires Distinct(keys)
    ensures Distinct(FolderEntries(needle, keys))
    decreases |keys|
  {
    if keys != [] {
      var init, last := keys[..|keys| - 1], keys[|keys| - 1];
      assert Distinct(init);
      FolderEntriesDistinct(needle, init);
      FolderEntriesMembership(needle, init, last);
      assert last !in init;
    }
  }

  /** Filtering a listing again changes nothing. */
  lemma {:induction false} FolderEntriesIdempotent(needle: string, keys: seq<string>)
    ensures FolderEntries(needle, FolderEntries(needle, keys)) == FolderEntries(needle, keys)
    decreases |keys|
  {
    if keys != [] {
      var init, last := keys[..|keys| - 1], keys[|keys| - 1];
      var kept := if IsSelfEntry(needle, last) then [] else [last];
      FolderEntriesIdempotent(needle, init);
      FolderEntriesAppend(needle, FolderEntries(needle, init), kept);
      if kept != [] {
        assert FolderEntries(needle, kept) == FolderEntries(needle, kept[..0]) + kept;
      }
    }
  }

  /** An answer made of self-entries only gives an empty listing. */
  lemma {:induction false} FolderEntriesOnlySelf(needle: string, keys: seq<string>)
    requires forall i :: 0 <= i < |keys| ==> IsSelfEntry(needle, keys[i])
    ensures FolderEntries(needle, keys) == []
    decreases |keys|
  {
    if keys != [] {
      FolderEntriesOnlySelf(needle, keys[..|keys| - 1]);
    }
  }

  /** An answer without self-entries is listed as it is. */
  lemma {:induction false} FolderEntriesNoSelf(needle: string, keys: seq<string>)
    requires forall i :: 0 <= i < |keys| ==> !IsSelfEntry(needle, keys[i])
    ensures FolderEntries(needle, keys) == keys
    decreases |keys|
  {
    if keys != [] {
      FolderEntriesNoSelf(needle, keys[..|keys| - 1]);
      assert keys[..|keys| - 1] + [keys[|keys| - 1]] == keys;
    }
  }

  /** A needle that does not start with `/` and is longer than one character
      matches the keys `/needle/` and `needle//`: the two spellings of the
      folder's own key when the folder name is non-empty and has no closing
      `/`. */
  lemma SelfKeysAreSelfEntries(needle: string)
    requires |needle| >= 2 && needle[0] != '/'
    ensures IsSelfEntry(needle, "/" + needle + "/")
    ensures IsSelfEntry(needle, needle + "//")
  {
    StrReplaceSkip(needle, "", '/', needle + "/");
    assert "/" + needle + "/" == ['/'] + (needle + "/");
    StrReplaceLeading(needle, "", "/");
    StrReplaceLeading(needle, "", "//");
  }

  /** A needle with a `/` after its first character cannot occur in `/name`
      when `name` holds no `/`. */
  lemma NeedleNotInChildName(needle: string, name: string)
    requires |needle| >= 2 && '/' in needle[1..]
    requires '/' !in name
    ensures !Contains("/" + name, needle)
  {
    var j :| 0 <= j < |needle| - 1 && needle[1..][j] == '/';
    var tail := "/" + name;
    forall i ensures !OccursAt(needle, tail, i) {
      if 0 <= i && i + |needle| <= |tail| {
        assert tail[i + j + 1] == name[i + j] != '/';
        assert tail[i..i + |needle|][j + 1] != needle[j + 1];
      }
    }
  }

  /** With a needle that holds a `/` after its first character, a child key
      `needle/name` with a non-empty, slash-free `name` is kept: the removal
      leaves `/name`. */
  lemma BareChildKeyIsKept(needle: string, name: string)
    requires |needle| >= 2 && '/' in needle[1..]
    requires name != [] && '/' !in name
    ensures StrReplace(needle, "", needle + "/" + name) == "/" + name
    ensures !IsSelfEntry(needle, needle + "/" + name)
  {
    var tail := "/" + name;
    NeedleNotInChildName(needle, name);
    StrReplaceAbsent(needle, "", tail);
    assert needle + "/" + name == needle + tail;
    StrReplaceLeading(needle, "", tail);
    assert tail[1] == name[0] != '/';
  }

  /** The same for the key written with a leading slash, `/needle/name`, when
      the needle does not start with `/`: the removal leaves `//name`. */
  lemma ChildKeyIsKept(needle: string, name: string)
    requires |needle| >= 2 && needle[0] != '/' && '/' in needle[1..]
    requires name != [] && '/' !in name
    ensures StrReplace(needle, "", "/" + needle + "/" + name) == "//" + name
    ensures !IsSelfEntry(needle, "/" + needle + "/" + name)
  {
    var bare := needle + "/" + name;
    calc {
      StrReplace(needle, "", "/" + needle + "/" + name);
      { assert "/" + needle + "/" + name == ['/'] + bare; }
      StrReplace(needle, "", ['/'] + bare);
      { StrReplaceSkip(needle, "", '/', bare); }
      ['/'] + StrReplace(needle, "", bare);
      { BareChildKeyIsKept(needle, name); }
      ['/'] + ("/" + name);
      "//" + name;
    }
    assert |"//" + name| > 2;
  }

  /** The key `/needle` is never recognised. When the needle itself ends in
      `/` (the root folder, or a folder named with a trailing slash) that key
      is the folder's own, and it is listed. */
  lemma TrailingSlashSelfKeyIsKept(needle: string)
    requires |needle| >= 2 && needle[0] != '/'
    ensures StrReplace(needle, "", "/" + needle) == "/"
    ensures !IsSelfEntry(needle, "/" + needle)
  {
    StrReplaceSkip(needle, "", '/', needle);
    StrReplaceLeading(needle, "", []);
    assert needle + [] == needle;
  }
}
