/** The extension allow-list of the upload service: a filename is accepted
    when it contains a dot and the text after its last dot, lower-cased, is
    one of the allowed image extensions. app.py takes that text as the
    last element of the filename split on every dot, so the module models
    Python's `str.split` on a single-character separator and relates it to
    the "text after the last dot" reading.
 */
module Extension {

  /** The allowed extensions, compared after lower-casing. */
  const AllowedExtensions: set<string> := {"png", "jpg", "jpeg", "gif"}

  const Dot: char := '.'

  /** Python's `s.split(sep)` (equivalently `s.rsplit(sep)` with no limit)
      for a single-character separator: the maximal runs between separators,
      including empty ones, so there is always at least one part. */
  function Split(s: string, sep: char): (parts: seq<string>)
    ensures |parts| >= 1
    ensures forall i :: 0 <= i < |parts| ==> sep !in parts[i]
    ensures sep !in s ==> parts == [s]
    ensures sep in s ==> |parts| >= 2
    decreases |s|
  {
    if |s| == 0 then [""]
    else
      var rest := Split(s[1..], sep);
      assert s == [s[0]] + s[1..];
      assert sep in s <==> s[0] == sep || sep in s[1..];
      if s[0] == sep then [""] + rest
      else [[s[0]] + rest[0]] + rest[1..]
  }

  /** Python's `sep.join(parts)`. */
  function Join(parts: seq<string>, sep: char): string
    requires |parts| >= 1
    decreases |parts|
  {
    if |parts| == 1 then parts[0]
    else parts[0] + [sep] + Join(parts[1..], sep)
  }

  /** Joining the parts of a split gives back the original string. */
  lemma {:induction false} JoinSplit(s: string, sep: char)
    ensures Join(Split(s, sep), sep) == s
    decreases |s|
  {
    if |s| > 0 {
      var rest := Split(s[1..], sep);
      JoinSplit(s[1..], sep);
      if s[0] == sep {
        assert Split(s, sep) == [""] + rest;
        assert ([""] + rest)[1..] == rest;
        assert s == [sep] + s[1..];
      } else {
        var parts := [[s[0]] + rest[0]] + rest[1..];
        assert Split(s, sep) == parts;
        if |rest| == 1 {
          assert s == [s[0]] + s[1..];
        } else {
          assert parts[1..] == rest[1..];
          assert Join(rest, sep) == rest[0] + [sep] + Join(rest[1..], sep);
          assert s == [s[0]] + s[1..];
        }
      }
    }
  }

  /** Splitting a string whose first separator follows the prefix `a`. */
  lemma {:induction false} SplitAfterSeparator(a: string, b: string, sep: char)
    requires sep !in a
    ensures Split(a + [sep] + b, sep) == [a] + Split(b, sep)
    decreases |a|
  {
    var s := a + [sep] + b;
    if |a| == 0 {
      assert s[0] == sep && s[1..] == b;
    } else {
      assert s[0] == a[0] && s[1..] == a[1..] + [sep] + b;
      SplitAfterSeparator(a[1..], b, sep);
      assert [a[0]] + a[1..] == a;
    }
  }

  /** Splitting a join of separator-free parts gives back the parts. */
  lemma {:induction false} SplitJoin(parts: seq<string>, sep: char)
    requires |parts| >= 1
    requires forall i :: 0 <= i < |parts| ==> sep !in parts[i]
    ensures Split(Join(parts, sep), sep) == parts
    decreases |parts|
  {
    if |parts| == 1 {
      assert parts == [parts[0]];
    } else {
      SplitJoin(parts[1..], sep);
      SplitAfterSeparator(parts[0], Join(parts[1..], sep), sep);
      assert [parts[0]] + parts[1..] == parts;
    }
  }

  function Last(parts: seq<string>): string
    requires |parts| >= 1
  {
    parts[|parts| - 1]
  }

  /** The last part of a split is the text after the last separator: a
      separator-free suffix of `s` that is either all of `s` (no separator
      at all) or is preceded by a separator. */
  lemma {:induction false} LastPartIsSuffix(s: string, sep: char)
    ensures var l := Last(Split(s, sep));
      && |l| <= |s| && s[|s| - |l|..] == l && sep !in l
      && (|l| == |s| <==> sep !in s)
      && (|l| < |s| ==> s[|s| - |l| - 1] == sep)
    decreases |s|
  {
    if |s| > 0 {
      var rest := Split(s[1..], sep);
      LastPartIsSuffix(s[1..], sep);
      var l' := Last(rest);
      if s[0] == sep {
        assert Split(s, sep) == [""] + rest;
        assert Last(Split(s, sep)) == l';
        assert sep in s;
      } else if |rest| == 1 {
        assert Split(s, sep) == [[s[0]] + rest[0]];
        assert sep !in s[1..];
        assert s == [s[0]] + s[1..];
      } else {
        var parts := [[s[0]] + rest[0]] + rest[1..];
        assert Split(s, sep) == parts;
        assert Last(parts) == l';
        assert sep in s[1..];
      }
    }
  }

  function LowerChar(c: char): char
  {
    if 'A' <= c <= 'Z' then (c as int - 'A' as int + 'a' as int) as char else c
  }

  /** `str.lower()` restricted to the ASCII letters (see README): no
      upper-case letter survives, and every other character is kept. */
  function Lower(s: string): (r: string)
    ensures |r| == |s|
    ensures forall i :: 0 <= i < |s| ==> r[i] == LowerChar(s[i])
    ensures forall i :: 0 <= i < |r| ==> !('A' <= r[i] <= 'Z')
    ensures forall i :: 0 <= i < |s| ==>
      if 'A' <= s[i] <= 'Z' then r[i] as int == s[i] as int + 32 else r[i] == s[i]
  {
    seq(|s|, i requires 0 <= i < |s| => LowerChar(s[i]))
  }

  /** Reference reading of the allow-list, stated on positions: some dot is
      followed by a dot-free tail whose lower-cased form is allowed. */
  predicate ExtensionAt(filename: string, i: int)
  {
    0 <= i < |filename| && filename[i] == Dot
    && Dot !in filename[i + 1..] && Lower(filename[i + 1..]) in AllowedExtensions
  }

  /** The last-part test of `allowed_images` agrees with the positional
      reading. */
  lemma LastPartReading(filename: string)
    ensures (Dot in filename && Lower(Last(Split(filename, Dot))) in AllowedExtensions)
      <==> exists i :: ExtensionAt(filename, i)
  {
    LastPartIsSuffix(filename, Dot);
    var l := Last(Split(filename, Dot));
    if Dot in filename && Lower(l) in AllowedExtensions {
      assert ExtensionAt(filename, |filename| - |l| - 1);
    }
    if i :| ExtensionAt(filename, i) {
      // the dot at `i` is the last one, so its tail is the last part
      assert i == |filename| - |l| - 1;
    }
  }

  /** The service's `allowed_images` (app.py): a dot must be present, and the
      last dot-separated part, lower-cased, must be an allowed extension. */
  function AllowedImage(filename: string): (ok: bool)
    ensures ok <==> exists i :: ExtensionAt(filename, i)
  {
    LastPartReading(filename);
    Dot in filename && Lower(Last(Split(filename, Dot))) in AllowedExtensions
  }

  /** An accepted filename carries a dot and a non-empty extension after
      it, so it is never empty; in particular the empty filename would also
      fail this check. */
  lemma AcceptedIsNonEmpty(filename: string)
    ensures AllowedImage(filename) ==> |filename| >= 4
    ensures !AllowedImage("")
  {
  }

  /** The dot test is not implied by the extension test: a bare "png" would
      pass the second test but is rejected by the first. */
  lemma DotTestMatters()
    ensures Lower(Last(Split("png", Dot))) in AllowedExtensions
    ensures !AllowedImage("png")
  {
    assert Split("png", Dot) == ["png"];
    assert Lower("png") == "png";
  }

  /** The last part of a split is whatever follows a final separator. */
  lemma {:induction false} LastPartAfterFinalSeparator(a: string, b: string, sep: char)
    requires sep !in b
    ensures Last(Split(a + [sep] + b, sep)) == b
    decreases |a|
  {
    var s := a + [sep] + b;
    if |a| == 0 {
      SplitAfterSeparator(a, b, sep);
    } else {
      assert s[1..] == a[1..] + [sep] + b;
      assert sep in s[1..] by { assert s[1..][|a| - 1] == sep; }
      LastPartAfterFinalSeparator(a[1..], b, sep);
      var rest := Split(s[1..], sep);
      if s[0] == sep {
        assert Split(s, sep) == [""] + rest;
      } else {
        assert Split(s, sep) == [[s[0]] + rest[0]] + rest[1..];
      }
    }
  }

  /** An upper-case extension is accepted. */
  lemma AcceptsUpperCase()
    ensures AllowedImage("a.PNG")
  {
    assert "a.PNG" == "a" + [Dot] + "PNG";
    LastPartAfterFinalSeparator("a", "PNG", Dot);
    assert Lower("PNG") == "png";
    assert "a.PNG"[1] == Dot;
  }

  /** Only the last dot-separated part is the extension. */
  lemma AcceptsLastPartOnly()
    ensures AllowedImage("x.tar.gif")
  {
    assert "x.tar.gif" == "x.tar" + [Dot] + "gif";
    LastPartAfterFinalSeparator("x.tar", "gif", Dot);
    assert Lower("gif") == "gif";
    assert "x.tar.gif"[1] == Dot;
  }

  /** An allowed extension that is not the last part is rejected. */
  lemma RejectsInnerExtension()
    ensures !AllowedImage("a.png.exe")
  {
    assert "exe" !in AllowedExtensions;
    assert Lower("exe") == "exe";
    assert "a.png.exe" == "a.png" + [Dot] + "exe";
    LastPartAfterFinalSeparator("a.png", "exe", Dot);
  }

  /** A trailing dot leaves an empty extension, which is rejected. */
  lemma RejectsEmptyExtension()
    ensures !AllowedImage("photo.")
  {
    assert "photo." == "photo" + [Dot] + "";
    LastPartAfterFinalSeparator("photo", "", Dot);
    assert Lower("") == "";
  }

  /** `e` equals `w` letter by letter, up to the case of ASCII letters in `e`
      (an upper-case ASCII letter sits 32 code points below its lower-case
      form). */
  predicate MatchesIgnoringCase(e: string, w: string)
  {
    |e| == |w| && forall i :: 0 <= i < |e| ==> e[i] == w[i] || e[i] as int + 32 == w[i] as int
  }

  predicate AllLowerLetters(w: string)
  {
    forall i :: 0 <= i < |w| ==> 'a' <= w[i] <= 'z'
  }

  /** Lower-casing `e` yields a lower-case word exactly when `e` spells that
      word ignoring case. */
  lemma LowerMatchesIgnoringCase(e: string, w: string)
    requires AllLowerLetters(w)
    ensures Lower(e) == w <==> MatchesIgnoringCase(e, w)
  {
  }

  /** Case-insensitivity of the allow-list, for every name: with a dot-free
      extension `e` after the final dot, the name is accepted exactly when
      `e` spells an allowed extension in any mix of upper and lower case. */
  lemma AllowedIgnoringCase(a: string, e: string)
    requires Dot !in e
    ensures AllowedImage(a + [Dot] + e) <==>
      exists w :: w in AllowedExtensions && MatchesIgnoringCase(e, w)
  {
    var f := a + [Dot] + e;
    LastPartAfterFinalSeparator(a, e, Dot);
    assert f[|a|] == Dot;
    forall w | w in AllowedExtensions
      ensures Lower(e) == w <==> MatchesIgnoringCase(e, w)
    {
      LowerMatchesIgnoringCase(e, w);
    }
  }
}
