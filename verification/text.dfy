/** The string primitives the Python code relies on: `str.strip`, `str.split` with a
    one-character separator, `sep.join`, and the line splitting done by iterating a text file. */
module Text {
  import opened Results

  /** The ASCII whitespace characters (space, tab, newline, carriage return, vertical tab, form feed). */
  predicate IsSpace(c: char) {
    c == ' ' || c == '\t' || c == '\n' || c == '\r' || c == '\U{0B}' || c == '\U{0C}'
  }

  predicate AllSpaces(s: string) {
    forall i :: 0 <= i < |s| ==> IsSpace(s[i])
  }

  /** `s.lstrip()`: the longest suffix of `s` that does not start with whitespace. */
  function LStrip(s: string): (r: string)
    ensures |r| <= |s| && r == s[|s| - |r|..]
    ensures AllSpaces(s[..|s| - |r|])
    ensures |r| > 0 ==> !IsSpace(r[0])
  {
    if |s| > 0 && IsSpace(s[0]) then LStrip(s[1..]) else s
  }

  /** `s.rstrip()`: the longest prefix of `s` that does not end with whitespace. */
  function RStrip(s: string): (r: string)
    ensures |r| <= |s| && r == s[..|r|]
    ensures AllSpaces(s[|r|..])
    ensures |r| > 0 ==> !IsSpace(r[|r| - 1])
  {
    if |s| > 0 && IsSpace(s[|s| - 1]) then RStrip(s[..|s| - 1]) else s
  }

  /** `s.strip()`: `s` without its leading and trailing whitespace. */
  function Strip(s: string): (r: string)
    ensures |r| <= |s|
    ensures |r| > 0 ==> !IsSpace(r[0]) && !IsSpace(r[|r| - 1])
  {
    RStrip(LStrip(s))
  }

  /** What `Strip` removes is whitespace, and only from the two ends. */
  lemma StripSlice(s: string)
    ensures var r := Strip(s);
      exists lo :: 0 <= lo && lo + |r| <= |s| && r == s[lo..lo + |r|]
                   && AllSpaces(s[..lo]) && AllSpaces(s[lo + |r|..])
  {
    var left := LStrip(s);
    var r := RStrip(left);
    var lo := |s| - |left|;
    assert r == s[lo..lo + |r|];
    assert s[lo + |r|..] == left[|r|..];
  }

  /** Stripping undoes padding by whitespace on either side of text that has none at its ends. */
  lemma {:induction false} StripPadded(pre: string, t: string, post: string)
    requires AllSpaces(pre) && AllSpaces(post)
    requires |t| > 0 ==> !IsSpace(t[0]) && !IsSpace(t[|t| - 1])
    ensures Strip(pre + t + post) == t
  {
    var s := pre + t + post;
    if |t| == 0 {
      assert AllSpaces(s) by {
        assert s == pre + post;
      }
    } else {
      assert s == pre + (t + post);
      LStripSpaces(pre, t + post);
      RStripSpaces(t, post);
    }
  }

  /** Text with no whitespace at either end is left alone by stripping. */
  lemma StripClean(t: string)
    requires |t| > 0 ==> !IsSpace(t[0]) && !IsSpace(t[|t| - 1])
    ensures Strip(t) == t
  {
    StripPadded("", t, "");
    assert "" + t + "" == t;
  }

  lemma {:induction false} LStripSpaces(pre: string, t: string)
    requires AllSpaces(pre)
    requires |t| > 0 ==> !IsSpace(t[0])
    ensures LStrip(pre + t) == LStrip(t)
    decreases |pre|
  {
    if |pre| > 0 {
      assert (pre + t)[1..] == pre[1..] + t;
      LStripSpaces(pre[1..], t);
    } else {
      assert pre + t == t;
    }
  }

  lemma {:induction false} RStripSpaces(t: string, post: string)
    requires AllSpaces(post)
    requires |t| > 0 ==> !IsSpace(t[|t| - 1])
    ensures RStrip(t + post) == t
    decreases |post|
  {
    if |post| > 0 {
      assert (t + post)[..|t + post| - 1] == t + post[..|post| - 1];
      RStripSpaces(t, post[..|post| - 1]);
    } else {
      assert t + post == t;
    }
  }

  /** The position of the first occurrence of `c` in `s`, if any (`s.find(c)`). */
  function IndexOf(s: string, c: char): (r: Option<nat>)
    ensures r.Some? ==> r.value < |s| && s[r.value] == c && c !in s[..r.value]
    ensures r.None? ==> c !in s
  {
    if |s| == 0 then None
    else if s[0] == c then Some(0)
    else match IndexOf(s[1..], c)
      case None => None
      case Some(i) =>
        assert s[..i + 1] == [s[0]] + s[1..][..i];
        Some(i + 1)
  }

  /** The separator is found right after a prefix that does not contain it. */
  lemma {:induction false} IndexOfAfter(p: string, c: char, t: string)
    requires c !in p
    ensures IndexOf(p + [c] + t, c) == Some(|p|)
    decreases |p|
  {
    if |p| > 0 {
      assert (p + [c] + t)[1..] == p[1..] + [c] + t;
      IndexOfAfter(p[1..], c, t);
    }
  }

  /** `s.split(sep)` for a one-character separator: the maximal separator-free pieces, in order. */
  function Split(s: string, sep: char): (parts: seq<string>)
    ensures |parts| >= 1
    ensures forall i :: 0 <= i < |parts| ==> sep !in parts[i]
    decreases |s|
  {
    match IndexOf(s, sep)
    case None => [s]
    case Some(i) => [s[..i]] + Split(s[i + 1..], sep)
  }

  /** `sep.join(parts)`. */
  function Join(parts: seq<string>, sep: char): (r: string)
  {
    if |parts| == 0 then ""
    else if |parts| == 1 then parts[0]
    else parts[0] + [sep] + Join(parts[1..], sep)
  }

  /** Joining the pieces of a split gives back the original string. */
  lemma {:induction false} JoinSplit(s: string, sep: char)
    ensures Join(Split(s, sep), sep) == s
    decreases |s|
  {
    match IndexOf(s, sep)
    case None =>
    case Some(i) =>
      var rest := Split(s[i + 1..], sep);
      var parts := [s[..i]] + rest;
      assert Split(s, sep) == parts;
      assert parts[1..] == rest;
      assert Join(parts, sep) == s[..i] + [sep] + Join(rest, sep);
      JoinSplit(s[i + 1..], sep);
      assert s == s[..i] + [sep] + s[i + 1..];
  }

  /** Splitting a join of separator-free pieces gives back the pieces. */
  lemma {:induction false} SplitJoin(parts: seq<string>, sep: char)
    requires |parts| >= 1
    requires forall i :: 0 <= i < |parts| ==> sep !in parts[i]
    ensures Split(Join(parts, sep), sep) == parts
    decreases |parts|
  {
    if |parts| > 1 {
      var rest := Join(parts[1..], sep);
      IndexOfAfter(parts[0], sep, rest);
      var s := parts[0] + [sep] + rest;
      assert s[..|parts[0]|] == parts[0];
      assert s[|parts[0]| + 1..] == rest;
      SplitJoin(parts[1..], sep);
      assert parts == [parts[0]] + parts[1..];
    }
  }

  /** The lines produced by iterating a text file: each ends with its newline,
      except possibly the last one; empty content has no lines. */
  function Lines(content: string): (lines: seq<string>)
    ensures forall i :: 0 <= i < |lines| ==> |lines[i]| > 0
    ensures forall i :: 0 <= i < |lines| - 1 ==> lines[i][|lines[i]| - 1] == '\n'
    ensures forall i :: 0 <= i < |lines| ==> '\n' !in lines[i][..|lines[i]| - 1]
    decreases |content|
  {
    if |content| == 0 then []
    else match IndexOf(content, '\n')
      case None => [content]
      case Some(i) =>
        assert content[..i + 1][..i] == content[..i];
        [content[..i + 1]] + Lines(content[i + 1..])
  }

  /** The text of a file written line by line. */
  function Concat(lines: seq<string>): (r: string)
  {
    if |lines| == 0 then "" else lines[0] + Concat(lines[1..])
  }

  /** Writing back the lines of a file reproduces its content. */
  lemma {:induction false} ConcatLines(content: string)
    ensures Concat(Lines(content)) == content
    decreases |content|
  {
    if |content| > 0 {
      match IndexOf(content, '\n')
      case None =>
      case Some(i) =>
        ConcatLines(content[i + 1..]);
        assert content == content[..i + 1] + content[i + 1..];
    }
  }

  /** Reading back a file written as newline-terminated lines gives those lines. */
  lemma {:induction false} LinesConcat(lines: seq<string>)
    requires forall i :: 0 <= i < |lines| ==> |lines[i]| > 0 && lines[i][|lines[i]| - 1] == '\n'
    requires forall i :: 0 <= i < |lines| ==> '\n' !in lines[i][..|lines[i]| - 1]
    ensures Lines(Concat(lines)) == lines
    decreases |lines|
  {
    if |lines| > 0 {
      var l := lines[0];
      var body := l[..|l| - 1];
      var rest := Concat(lines[1..]);
      assert l == body + ['\n'];
      IndexOfAfter(body, '\n', rest);
      assert Concat(lines) == body + ['\n'] + rest;
      assert (body + ['\n'] + rest)[..|body| + 1] == l;
      assert (body + ['\n'] + rest)[|body| + 1..] == rest;
      LinesConcat(lines[1..]);
      assert lines == [l] + lines[1..];
    }
  }

  /** A character that is neither the separator nor in any piece is not in their join. */
  lemma {:induction false} JoinAvoids(parts: seq<string>, sep: char, c: char)
    requires c != sep
    requires forall i :: 0 <= i < |parts| ==> c !in parts[i]
    ensures c !in Join(parts, sep)
    decreases |parts|
  {
    if |parts| > 1 {
      JoinAvoids(parts[1..], sep, c);
    }
  }

  /** A join of non-empty pieces starts where its first piece starts and ends where its
      last piece ends. */
  lemma {:induction false} JoinEnds(parts: seq<string>, sep: char)
    requires |parts| >= 1 && forall i :: 0 <= i < |parts| ==> |parts[i]| > 0
    ensures var j := Join(parts, sep);
      |j| > 0 && j[0] == parts[0][0] && j[|j| - 1] == parts[|parts| - 1][|parts[|parts| - 1]| - 1]
    decreases |parts|
  {
    if |parts| > 1 {
      JoinEnds(parts[1..], sep);
    }
  }

  /** Appending one more piece appends a separator and the piece. */
  lemma {:induction false} JoinAppend(parts: seq<string>, p: string, sep: char)
    requires |parts| >= 1
    ensures Join(parts + [p], sep) == Join(parts, sep) + [sep] + p
    decreases |parts|
  {
    if |parts| > 1 {
      assert (parts + [p])[1..] == parts[1..] + [p];
      JoinAppend(parts[1..], p, sep);
    }
  }

  /** A string that ends with the separator splits into its pieces and one empty piece
      (`"1,2,".split(",") == ["1", "2", ""]`). */
  lemma SplitTrailing(s: string, sep: char)
    ensures Split(s + [sep], sep) == Split(s, sep) + [""]
  {
    var parts := Split(s, sep) + [""];
    JoinAppend(Split(s, sep), "", sep);
    JoinSplit(s, sep);
    assert Join(parts, sep) == s + [sep];
    SplitJoin(parts, sep);
  }
}
