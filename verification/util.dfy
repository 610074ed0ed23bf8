/** The song-name sanitiser of `src/util.rs`. */
module Util {
  import opened Seqs
  import opened Text

  /** The thirteen characters `sanitize_song_name` deletes, in the order the code lists them. */
  predicate IsSpecial(c: char) {
    || c == '(' || c == ')' || c == ',' || c == '"' || c == '.' || c == ';' || c == ':'
    || c == '\'' || c == '\\' || c == '/' || c == '-' || c == '>' || c == '<'
  }

  predicate NoSpecial(s: string) {
    forall i :: 0 <= i < |s| ==> !IsSpecial(s[i])
  }

  /** `str::replace` with a character-set pattern and an empty replacement:
      every occurrence of a special character is deleted, wherever it stands. */
  function RemoveSpecial(s: string): (r: string)
    ensures NoSpecial(r)
    ensures |r| <= |s|
    decreases |s|
  {
    if |s| == 0 then []
    else
      var t := RemoveSpecial(s[..|s| - 1]);
      var c := s[|s| - 1];
      if IsSpecial(c) then t else t + [c]
  }

  /** Deletion keeps the remaining characters in their original order. */
  lemma {:induction false} RemoveSpecialKeepsOrder(s: string)
    ensures IsSubsequence(RemoveSpecial(s), s)
    decreases |s|
  {
    if |s| > 0 {
      var s', c := s[..|s| - 1], s[|s| - 1];
      RemoveSpecialKeepsOrder(s');
      if IsSpecial(c) {
        SubsequenceExtendRight(RemoveSpecial(s'), s', [c]);
      } else {
        assert (RemoveSpecial(s') + [c])[..|RemoveSpecial(s')|] == RemoveSpecial(s');
      }
      assert s' + [c] == s;
    }
  }

  /** Deletion acts on each piece of a string independently. */
  lemma {:induction false} RemoveSpecialAppend(a: string, b: string)
    ensures RemoveSpecial(a + b) == RemoveSpecial(a) + RemoveSpecial(b)
    decreases |b|
  {
    if |b| > 0 {
      assert (a + b)[..|a + b| - 1] == a + b[..|b| - 1];
      RemoveSpecialAppend(a, b[..|b| - 1]);
    } else {
      assert a + b == a;
    }
  }

  /** A string without special characters passes through deletion unchanged. */
  lemma {:induction false} RemoveSpecialFixpoint(s: string)
    requires NoSpecial(s)
    ensures RemoveSpecial(s) == s
    decreases |s|
  {
    if |s| > 0 {
      RemoveSpecialFixpoint(s[..|s| - 1]);
    }
  }

  /** A string made only of special characters disappears entirely. */
  lemma {:induction false} RemoveSpecialAllSpecial(s: string)
    requires forall i :: 0 <= i < |s| ==> IsSpecial(s[i])
    ensures RemoveSpecial(s) == []
    decreases |s|
  {
    if |s| > 0 {
      RemoveSpecialAllSpecial(s[..|s| - 1]);
    }
  }

  /** Every character that is not special survives deletion, as often as it occurred. */
  lemma {:induction false} RemoveSpecialKeepsOthers(s: string, c: char)
    requires !IsSpecial(c)
    ensures multiset(RemoveSpecial(s))[c] == multiset(s)[c]
    decreases |s|
  {
    if |s| > 0 {
      RemoveSpecialKeepsOthers(s[..|s| - 1], c);
      assert s == s[..|s| - 1] + [s[|s| - 1]];
    }
  }

  /** `sanitize_song_name`: delete the special characters, then trim. */
  function SanitizeSongName(s: string): (r: string)
    ensures NoSpecial(r)
    ensures NoSurroundingWhitespace(r)
    ensures |r| <= |s|
  {
    var d := RemoveSpecial(s);
    TrimKeepsContents(d);
    Trim(d)
  }

  /** Trimming keeps a contiguous piece of its input, so it adds no character and keeps the order. */
  lemma TrimKeepsContents(d: string)
    ensures IsSubsequence(Trim(d), d)
    ensures |Trim(d)| <= |d|
    ensures NoSpecial(d) ==> NoSpecial(Trim(d))
  {
    var r := Trim(d);
    var i := SkipForward(d, 0);
    assert r == d[i..SkipBackward(d, i, |d|)];
    SubsequenceOfSlice(d, i, i + |r|);
    if NoSpecial(d) {
      forall k | 0 <= k < |r|
        ensures !IsSpecial(r[k])
      {
        assert r[k] == d[i + k];
      }
    }
  }

  /** The sanitised name keeps the surviving characters, inner spaces included, in their original order. */
  lemma SanitizeKeepsOrder(s: string)
    ensures IsSubsequence(SanitizeSongName(s), s)
  {
    var d := RemoveSpecial(s);
    RemoveSpecialKeepsOrder(s);
    TrimKeepsContents(d);
    SubsequenceTransitive(Trim(d), d, s);
  }

  /** Only whitespace at the ends of the deleted string is lost: for any string that,
      once its special characters are gone, is `mid` surrounded by whitespace, the result is `mid`. */
  lemma SanitizeOf(s: string, pre: string, mid: string, post: string)
    requires RemoveSpecial(s) == pre + mid + post
    requires AllWhitespace(pre) && AllWhitespace(post) && NoSurroundingWhitespace(mid)
    ensures SanitizeSongName(s) == mid
  {
    TrimOf(pre, mid, post);
  }

  /** Sanitising an already sanitised name changes nothing. */
  lemma SanitizeIdempotent(s: string)
    ensures SanitizeSongName(SanitizeSongName(s)) == SanitizeSongName(s)
  {
    var r := SanitizeSongName(s);
    RemoveSpecialFixpoint(r);
    TrimFixpoint(r);
  }

  /** `RemoveSpecialAppend` for a string given whole together with a split of it. */
  lemma RemoveSpecialJoin(a: string, b: string, s: string)
    requires s == a + b
    ensures RemoveSpecial(s) == RemoveSpecial(a) + RemoveSpecial(b)
  {
    RemoveSpecialAppend(a, b);
  }
}

/** The unit tests of `src/util.rs`, as lemmas. Each input is cut into pieces, each piece
    into runs of special and of ordinary characters: deletion empties the former, keeps the
    latter, and acts on each run and each piece independently (`RemoveSpecialAppend`);
    trimming then follows `TrimOf`. */
module UtilTests {
  import opened Text
  import opened Util

  lemma DarkStarHead()
    ensures RemoveSpecial("(Dark/\\ ") == "Dark "
  {
    RemoveSpecialAllSpecial("(");
    RemoveSpecialFixpoint("Dark");
    RemoveSpecialAllSpecial("/\\");
    RemoveSpecialFixpoint(" ");
    RemoveSpecialJoin("(", "Dark", "(Dark");
    RemoveSpecialJoin("(Dark", "/\\", "(Dark/\\");
    RemoveSpecialJoin("(Dark/\\", " ", "(Dark/\\ ");
  }

  lemma DarkStarTail()
    ensures RemoveSpecial("//Star-/-->") == "Star"
  {
    assert RemoveSpecial("//") == "" by {
      RemoveSpecialAllSpecial("//");
    }
    assert RemoveSpecial("//Star") == "Star" by {
      assert RemoveSpecial("Star") == "Star" by {
        RemoveSpecialFixpoint("Star");
      }
      RemoveSpecialJoin("//", "Star", "//Star");
    }
    assert RemoveSpecial("//Star-/-->") == "Star" by {
      assert RemoveSpecial("-/-->") == "" by {
        RemoveSpecialAllSpecial("-/-->");
      }
      RemoveSpecialJoin("//Star", "-/-->", "//Star-/-->");
    }
  }

  lemma DarkStarDeletion()
    ensures RemoveSpecial("(Dark/\\ //Star-/-->") == "Dark Star"
  {
    DarkStarHead();
    DarkStarTail();
    RemoveSpecialJoin("(Dark/\\ ", "//Star-/-->", "(Dark/\\ //Star-/-->");
  }

  lemma DarkStarTrim()
    ensures Trim("Dark Star") == "Dark Star"
  {
    assert "Dark Star" == "" + "Dark Star" + "";
    TrimOf("", "Dark Star", "");
  }

  /** The documented example of `sanitize_song_name` and its first unit test. */
  lemma DarkStarExample()
    ensures SanitizeSongName("(Dark/\\ //Star-/-->") == "Dark Star"
  {
    DarkStarDeletion();
    DarkStarTrim();
  }

  lemma MusicNeverStoppedFront()
    ensures RemoveSpecial("  The .,:;Music ->") == "  The Music "
  {
    RemoveSpecialFixpoint("  The ");
    RemoveSpecialAllSpecial(".,:;");
    RemoveSpecialFixpoint("Music ");
    RemoveSpecialAllSpecial("->");
    RemoveSpecialJoin("  The ", ".,:;", "  The .,:;");
    RemoveSpecialJoin("  The .,:;", "Music ", "  The .,:;Music ");
    RemoveSpecialJoin("  The .,:;Music ", "->", "  The .,:;Music ->");
  }

  lemma MusicNeverStoppedMiddle()
    ensures RemoveSpecial("Never <-") == "Never "
  {
    RemoveSpecialFixpoint("Never ");
    RemoveSpecialAllSpecial("<-");
    RemoveSpecialJoin("Never ", "<-", "Never <-");
  }

  lemma MusicNeverStoppedTail()
    ensures RemoveSpecial("Stopped-->  ") == "Stopped  "
  {
    RemoveSpecialFixpoint("Stopped");
    RemoveSpecialAllSpecial("-->");
    RemoveSpecialFixpoint("  ");
    RemoveSpecialJoin("Stopped", "-->", "Stopped-->");
    RemoveSpecialJoin("Stopped-->", "  ", "Stopped-->  ");
  }

  lemma MusicNeverStoppedDeletion()
    ensures RemoveSpecial("  The .,:;Music ->Never <-Stopped-->  ") == "  The Music Never Stopped  "
  {
    MusicNeverStoppedFront();
    MusicNeverStoppedMiddle();
    MusicNeverStoppedTail();
    RemoveSpecialJoin("  The .,:;Music ->", "Never <-", "  The .,:;Music ->Never <-");
    RemoveSpecialJoin("  The .,:;Music ->Never <-", "Stopped-->  ", "  The .,:;Music ->Never <-Stopped-->  ");
  }

  /** The deleted string is the expected name padded with two spaces on each side. */
  lemma MusicNeverStoppedPadding()
    ensures "  The Music Never Stopped  " == "  " + "The Music Never Stopped" + "  "
  {
  }

  lemma MusicNeverStoppedTrim()
    ensures Trim("  The Music Never Stopped  ") == "The Music Never Stopped"
  {
    MusicNeverStoppedPadding();
    TrimOf("  ", "The Music Never Stopped", "  ");
  }

  /** The second unit test: inner deletions and outer whitespace together. */
  lemma MusicNeverStoppedExample()
    ensures SanitizeSongName("  The .,:;Music ->Never <-Stopped-->  ") == "The Music Never Stopped"
  {
    MusicNeverStoppedDeletion();
    MusicNeverStoppedTrim();
  }
}
