/** The two PHP string builtins that the NextCloud client's decisions rest on,
    `str_replace` and `basename`, written out on byte strings (a `char` of a
    Dafny `string` stands for one byte of a PHP string). */
module PhpStrings {

  /** `needle` occurs in `s` starting at index `i`. */
  predicate OccursAt(needle: string, s: string, i: int)
  {
    0 <= i && i + |needle| <= |s| && s[i..i + |needle|] == needle
  }

  /** `needle` occurs somewhere in `s`. */
  predicate Contains(s: string, needle: string)
  {
    exists i :: 0 <= i <= |s| && OccursAt(needle, s, i)
  }

  /** PHP `str_replace(search, replace, subject)` for one string subject: scans
      left to right and replaces every non-overlapping occurrence of `search`.
      An empty `search` leaves the subject unchanged. */
  function StrReplace(search: string, replace: string, subject: string): (r: string)
    ensures |replace| <= |search| ==> |r| <= |subject|
    decreases |subject|
  {
    if search == [] || |subject| < |search| then subject
    else if subject[..|search|] == search then
      replace + StrReplace(search, replace, subject[|search|..])
    else
      [subject[0]] + StrReplace(search, replace, subject[1..])
  }

  /** An occurrence in the tail of `s` is an occurrence in `s`, one place on. */
  lemma OccursInTail(needle: string, s: string, i: int)
    requires s != []
    ensures OccursAt(needle, s[1..], i) ==> OccursAt(needle, s, i + 1)
  {
    if 0 <= i && i + |needle| <= |s| - 1 {
      assert s[1..][i..i + |needle|] == s[i + 1..i + 1 + |needle|];
    }
  }

  /** A subject without an occurrence of the search string is returned as it is. */
  lemma {:induction false} StrReplaceAbsent(search: string, replace: string, subject: string)
    requires !Contains(subject, search)
    ensures StrReplace(search, replace, subject) == subject
    decreases |subject|
  {
    if search != [] && |subject| >= |search| {
      assert !OccursAt(search, subject, 0);
      forall i ensures !OccursAt(search, subject[1..], i) {
        OccursInTail(search, subject, i);
      }
      StrReplaceAbsent(search, replace, subject[1..]);
      assert [subject[0]] + subject[1..] == subject;
    }
  }

  /** An occurrence at the very start is replaced, and the scan resumes after it. */
  lemma StrReplaceLeading(search: string, replace: string, rest: string)
    requires search != []
    ensures StrReplace(search, replace, search + rest) == replace + StrReplace(search, replace, rest)
  {
    var s := search + rest;
    assert s[..|search|] == search;
    assert s[|search|..] == rest;
  }

  /** A character that cannot start an occurrence is copied, and the scan moves on. */
  lemma StrReplaceSkip(search: string, replace: string, c: char, rest: string)
    requires search != [] && search[0] != c
    ensures StrReplace(search, replace, [c] + rest) == [c] + StrReplace(search, replace, rest)
  {
    var s := [c] + rest;
    if |s| >= |search| {
      assert s[..|search|][0] == c;
      assert s[1..] == rest;
    }
  }

  /** Replacing the search string by itself changes nothing. */
  lemma {:induction false} StrReplaceSelf(search: string, subject: string)
    ensures StrReplace(search, search, subject) == subject
    decreases |subject|
  {
    if search != [] && |subject| >= |search| {
      if subject[..|search|] == search {
        StrReplaceSelf(search, subject[|search|..]);
        assert search + subject[|search|..] == subject;
      } else {
        StrReplaceSelf(search, subject[1..]);
        assert [subject[0]] + subject[1..] == subject;
      }
    }
  }

  /** Reference definition: the pieces of `s` between the non-overlapping
      occurrences of `sep`, found left to right (PHP `explode`). */
  function SplitOn(sep: string, s: string): (pieces: seq<string>)
    requires sep != []
    ensures |pieces| >= 1
    decreases |s|
  {
    if |s| < |sep| then [s]
    else if s[..|sep|] == sep then [[]] + SplitOn(sep, s[|sep|..])
    else
      var rest := SplitOn(sep, s[1..]);
      [[s[0]] + rest[0]] + rest[1..]
  }

  /** Reference definition: the pieces glued together with `glue` between
      neighbours (PHP `implode`). */
  function JoinWith(glue: string, pieces: seq<string>): string
    requires |pieces| >= 1
    decreases |pieces|
  {
    if |pieces| == 1 then pieces[0] else pieces[0] + glue + JoinWith(glue, pieces[1..])
  }

  /** Extending the first piece extends the joined string at the front. */
  lemma JoinWithExtendFirst(glue: string, c: string, pieces: seq<string>)
    requires |pieces| >= 1
    ensures JoinWith(glue, [c + pieces[0]] + pieces[1..]) == c + JoinWith(glue, pieces)
  {
    var ext := [c + pieces[0]] + pieces[1..];
    if |pieces| > 1 {
      assert ext[1..] == pieces[1..];
    }
  }

  /** `str_replace` is `implode(replace, explode(search, subject))`. */
  lemma {:induction false} StrReplaceIsJoinOfSplit(search: string, replace: string, subject: string)
    requires search != []
    ensures StrReplace(search, replace, subject) == JoinWith(replace, SplitOn(search, subject))
    decreases |subject|
  {
    if |subject| >= |search| {
      if subject[..|search|] == search {
        var rest := SplitOn(search, subject[|search|..]);
        StrReplaceIsJoinOfSplit(search, replace, subject[|search|..]);
        assert ([[]] + rest)[1..] == rest;
      } else {
        StrReplaceIsJoinOfSplit(search, replace, subject[1..]);
        JoinWithExtendFirst(replace, [subject[0]], SplitOn(search, subject[1..]));
      }
    }
  }

  /** Splitting on `sep` and joining with `sep` gives back the string. */
  lemma SplitJoinRoundTrip(sep: string, s: string)
    requires sep != []
    ensures JoinWith(sep, SplitOn(sep, s)) == s
  {
    StrReplaceIsJoinOfSplit(sep, sep, s);
    StrReplaceSelf(sep, s);
  }

  /** The first piece is a prefix of the string. */
  lemma {:induction false} SplitOnFirstIsPrefix(sep: string, s: string)
    requires sep != []
    ensures |SplitOn(sep, s)[0]| <= |s| && s[..|SplitOn(sep, s)[0]|] == SplitOn(sep, s)[0]
    decreases |s|
  {
    if |s| >= |sep| && s[..|sep|] != sep {
      SplitOnFirstIsPrefix(sep, s[1..]);
    }
  }

  /** Putting the first character of `s` in front of a prefix of the rest of
      `s` creates no occurrence of `sep` when `s` does not start with one. */
  lemma ConsAvoidsSep(sep: string, s: string, piece: string)
    requires sep != [] && s != [] && (|s| >= |sep| ==> s[..|sep|] != sep)
    requires |piece| < |s| && piece == s[1..|piece| + 1]
    requires !Contains(piece, sep)
    ensures !Contains([s[0]] + piece, sep)
  {
    var p := [s[0]] + piece;
    assert p == s[..|p|];
    forall i ensures !OccursAt(sep, p, i) {
      if i == 0 && |sep| <= |p| {
        assert p[..|sep|] == s[..|sep|];
      } else if 0 < i && i + |sep| <= |p| {
        assert p[i..i + |sep|] == piece[i - 1..i - 1 + |sep|];
        assert !OccursAt(sep, piece, i - 1);
      }
    }
  }

  /** No piece contains the separator: every occurrence was a cut. */
  lemma {:induction false} SplitOnPiecesAvoidSep(sep: string, s: string, k: int)
    requires sep != [] && 0 <= k < |SplitOn(sep, s)|
    ensures !Contains(SplitOn(sep, s)[k], sep)
    decreases |s|
  {
    if |s| < |sep| {
      forall i ensures !OccursAt(sep, s, i) {}
    } else if s[..|sep|] == sep {
      if k > 0 {
        SplitOnPiecesAvoidSep(sep, s[|sep|..], k - 1);
      }
    } else if k == 0 {
      var piece := SplitOn(sep, s[1..])[0];
      SplitOnPiecesAvoidSep(sep, s[1..], 0);
      SplitOnFirstIsPrefix(sep, s[1..]);
      assert piece == s[1..|piece| + 1];
      ConsAvoidsSep(sep, s, piece);
    } else {
      SplitOnPiecesAvoidSep(sep, s[1..], k);
    }
  }

  /** `s` without its trailing `/` characters. */
  function StripTrailingSlashes(s: string): (r: string)
    ensures |r| <= |s| && r == s[..|r|]
    ensures r == [] || r[|r| - 1] != '/'
    ensures forall i :: |r| <= i < |s| ==> s[i] == '/'
    decreases |s|
  {
    if s != [] && s[|s| - 1] == '/' then StripTrailingSlashes(s[..|s| - 1]) else s
  }

  /** The longest suffix of `s` without a `/`. */
  function LastComponent(s: string): (r: string)
    ensures '/' !in r
    ensures |r| <= |s|
    decreases |s|
  {
    if s == [] || s[|s| - 1] == '/' then [] else LastComponent(s[..|s| - 1]) + [s[|s| - 1]]
  }

  /** The last component is a suffix of `s`, and it is either all of `s` or
      preceded by a `/`. */
  lemma {:induction false} LastComponentIsSuffix(s: string)
    ensures LastComponent(s) == s[|s| - |LastComponent(s)|..]
    ensures |LastComponent(s)| < |s| ==> s[|s| - |LastComponent(s)| - 1] == '/'
    decreases |s|
  {
    if s != [] && s[|s| - 1] != '/' {
      var init := s[..|s| - 1];
      LastComponentIsSuffix(init);
      var k := |LastComponent(init)|;
      assert s[|s| - (k + 1)..] == init[|init| - k..] + [s[|s| - 1]];
    }
  }

  /** PHP `basename(path)` on a POSIX system: the last path component once
      trailing slashes are stripped; "" when nothing but slashes is left. */
  function Basename(path: string): (r: string)
    ensures '/' !in r
  {
    LastComponent(StripTrailingSlashes(path))
  }

  /** The last component of `dir/name`, and of a bare `name`, is `name`. */
  lemma {:induction false} LastComponentOfChild(dir: string, name: string)
    requires '/' !in name
    ensures LastComponent(dir + "/" + name) == name
    ensures LastComponent(name) == name
    decreases |name|
  {
    if name != [] {
      var init, last := name[..|name| - 1], name[|name| - 1];
      assert name == init + [last];
      assert last != '/' && '/' !in init;
      var p := dir + "/" + name;
      assert p == (dir + "/" + init) + [last];
      LastComponentOfChild(dir, init);
      assert LastComponent(p) == LastComponent(dir + "/" + init) + [last];
      assert LastComponent(name) == LastComponent(init) + [last];
    }
  }

  /** The basename of `dir/name`, and of a bare `name`, is `name`. */
  lemma BasenameOfChild(dir: string, name: string)
    requires name != [] && '/' !in name
    ensures Basename(dir + "/" + name) == name
    ensures Basename(name) == name
  {
    var p := dir + "/" + name;
    assert name[|name| - 1] in name;
    assert p[|p| - 1] == name[|name| - 1];
    LastComponentOfChild(dir, name);
  }
}
