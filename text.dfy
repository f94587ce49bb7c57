/**
 * The PHP string primitives the server core relies on, over sequences:
 * `trim`, `explode` with a one-character separator, `implode`, and the
 * `preg_replace("/\r\n/", "\n", ...)` line-ending normalisation.
 */
module Text {
  import opened Bytes

  /** The characters PHP's `trim` strips by default: space, tab, LF, CR, NUL and vertical tab. */
  const WhitespaceChars: set<char> := {' ', '\t', '\n', '\r', '\0', '\U{0B}'}

  /** The same set as octets, for `trim` applied to a raw socket buffer. */
  const WhitespaceBytes: set<byte> := {0x20, 0x09, 0x0A, 0x0D, 0x00, 0x0B}

  /** `s` without its leading elements from `ws`. */
  function TrimLeft<T(==)>(s: seq<T>, ws: set<T>): (r: seq<T>)
    ensures |r| <= |s| && r == s[|s| - |r|..]
    ensures forall k :: 0 <= k < |s| - |r| ==> s[k] in ws
    ensures r != [] ==> r[0] !in ws
  {
    if s == [] || s[0] !in ws then s else TrimLeft(s[1..], ws)
  }

  /** `s` without its trailing elements from `ws`. */
  function TrimRight<T(==)>(s: seq<T>, ws: set<T>): (r: seq<T>)
    ensures |r| <= |s| && r == s[..|r|]
    ensures forall k :: |r| <= k < |s| ==> s[k] in ws
    ensures r != [] ==> r[|r| - 1] !in ws
  {
    if s == [] || s[|s| - 1] !in ws then s else TrimRight(s[..|s| - 1], ws)
  }

  /** PHP `trim`: the longest infix of `s` that neither starts nor ends with an element of `ws`. */
  function Trim<T(==)>(s: seq<T>, ws: set<T>): (r: seq<T>)
    ensures r != [] ==> r[0] !in ws && r[|r| - 1] !in ws
  {
    TrimRight(TrimLeft(s, ws), ws)
  }

  /**
   * `Trim` keeps the infix `s[i..j]` of its argument and strips only
   * whitespace around it.
   */
  lemma TrimIsInfix<T>(s: seq<T>, ws: set<T>) returns (i: nat, j: nat)
    ensures i <= j <= |s| && Trim(s, ws) == s[i..j]
    ensures forall k :: 0 <= k < i ==> s[k] in ws
    ensures forall k :: j <= k < |s| ==> s[k] in ws
  {
    var l := TrimLeft(s, ws);
    var r := TrimRight(l, ws);
    i := |s| - |l|;
    j := i + |r|;
    assert r == l[..|r|] && l == s[i..];
    assert r == s[i..j];
    forall k | j <= k < |s| ensures s[k] in ws {
      assert s[k] == l[k - i];
    }
  }

  /** A sequence trims to nothing exactly when every element is whitespace. */
  lemma TrimEmptyIffBlank<T>(s: seq<T>, ws: set<T>)
    ensures Trim(s, ws) == [] <==> forall k :: 0 <= k < |s| ==> s[k] in ws
  {
    var l := TrimLeft(s, ws);
    if Trim(s, ws) == [] {
      assert l == [];
    } else {
      var i := |s| - |l|;
      assert s[i] == l[0] && l[0] == Trim(s, ws)[0];
    }
  }

  /** `preg_replace("/\r\n/", "\n", s)`: every CR LF pair, scanned left to right, becomes LF. */
  function NormalizeNewlines(s: string): (r: string)
    ensures |r| <= |s|
    ensures '\r' !in s ==> r == s
  {
    if s == [] then []
    else if |s| >= 2 && s[0] == '\r' && s[1] == '\n' then ['\n'] + NormalizeNewlines(s[2..])
    else [s[0]] + NormalizeNewlines(s[1..])
  }

  /** `implode(sep, parts)`: the parts with `sep` between neighbours. */
  function Join<T>(parts: seq<seq<T>>, sep: seq<T>): (r: seq<T>)
    requires |parts| >= 1
  {
    if |parts| == 1 then parts[0] else parts[0] + sep + Join(parts[1..], sep)
  }

  /**
   * `explode(sep, s)`: the maximal pieces of `s` that do not contain `sep`.
   * There is always at least one piece, and gluing the pieces back with
   * `sep` gives `s`.
   */
  function Split<T(==)>(s: seq<T>, sep: T): (parts: seq<seq<T>>)
    ensures |parts| >= 1
    ensures forall k :: 0 <= k < |parts| ==> sep !in parts[k]
    ensures Join(parts, [sep]) == s
  {
    if s == [] then [[]]
    else
      var rest := Split(s[1..], sep);
      if s[0] == sep then
        assert Join([[]] + rest, [sep]) == [] + [sep] + Join(rest, [sep]);
        [[]] + rest
      else
        var parts := [[s[0]] + rest[0]] + rest[1..];
        JoinConsFirst(s[0], rest, [sep]);
        parts
  }

  lemma JoinConsFirst<T>(x: T, parts: seq<seq<T>>, sep: seq<T>)
    requires |parts| >= 1
    ensures Join([[x] + parts[0]] + parts[1..], sep) == [x] + Join(parts, sep)
  {
    var ps := [[x] + parts[0]] + parts[1..];
    if |parts| > 1 {
      assert ps[1..] == parts[1..];
    }
  }

  /** Splitting pieces that were joined with `sep` gives the pieces back. */
  lemma {:induction false} SplitJoin<T>(parts: seq<seq<T>>, sep: T)
    requires |parts| >= 1
    requires forall k :: 0 <= k < |parts| ==> sep !in parts[k]
    ensures Split(Join(parts, [sep]), sep) == parts
  {
    var s := Join(parts, [sep]);
    var ps := Split(s, sep);
    // Both are separator-free decompositions of the same text.
    SplitUnique(ps, parts, sep);
  }

  /** A text has only one decomposition into separator-free pieces. */
  lemma {:induction false} SplitUnique<T>(ps: seq<seq<T>>, qs: seq<seq<T>>, sep: T)
    requires |ps| >= 1 && |qs| >= 1
    requires forall k :: 0 <= k < |ps| ==> sep !in ps[k]
    requires forall k :: 0 <= k < |qs| ==> sep !in qs[k]
    requires Join(ps, [sep]) == Join(qs, [sep])
    ensures ps == qs
    decreases |ps|
  {
    var s := Join(ps, [sep]);
    PieceIsPrefix(ps, sep);
    PieceIsPrefix(qs, sep);
    assert |ps[0]| == |qs[0]|;
    assert ps[0] == s[..|ps[0]|] == qs[0];
    if |ps| > 1 && |qs| > 1 {
      var n := |ps[0]| + 1;
      assert Join(ps[1..], [sep]) == s[n..] == Join(qs[1..], [sep]);
      SplitUnique(ps[1..], qs[1..], sep);
      assert ps == [ps[0]] + ps[1..];
      assert qs == [qs[0]] + qs[1..];
    }
  }

  /** The first piece starts the joined text, followed by the separator when there are more pieces. */
  lemma PieceIsPrefix<T>(parts: seq<seq<T>>, sep: T)
    requires |parts| >= 1
    ensures |Join(parts, [sep])| >= |parts[0]|
    ensures Join(parts, [sep])[..|parts[0]|] == parts[0]
    ensures |parts| == 1 <==> |Join(parts, [sep])| == |parts[0]|
    ensures |parts| > 1 ==> Join(parts, [sep])[|parts[0]|] == sep
    ensures |parts| > 1 ==> Join(parts, [sep])[|parts[0]| + 1..] == Join(parts[1..], [sep])
  {
  }

  /** Normalising a text without CR in its head leaves the head alone. */
  lemma {:induction false} NormalizeKeepsHead(a: string, b: string)
    requires '\r' !in a
    ensures NormalizeNewlines(a + b) == a + NormalizeNewlines(b)
  {
    if a != [] {
      var ab := a + b;
      assert ab[0] == a[0] != '\r';
      assert ab[1..] == a[1..] + b;
      assert NormalizeNewlines(ab) == [a[0]] + NormalizeNewlines(a[1..] + b);
      NormalizeKeepsHead(a[1..], b);
      assert a == [a[0]] + a[1..];
    } else {
      assert a + b == b;
    }
  }

  /** The lines of a text: CR LF normalised to LF, then split at LF. */
  function Lines(s: string): (lines: seq<string>)
    ensures |lines| >= 1
    ensures forall k :: 0 <= k < |lines| ==> '\n' !in lines[k]
  {
    Split(NormalizeNewlines(s), '\n')
  }

  /** Lines without CR or LF, joined with CR LF, are read back as the same lines. */
  lemma LinesOfCrlfJoin(parts: seq<string>)
    requires |parts| >= 1
    requires forall k :: 0 <= k < |parts| ==> '\r' !in parts[k] && '\n' !in parts[k]
    ensures Lines(Join(parts, "\r\n")) == parts
  {
    NormalizeCrlfJoin(parts);
    SplitJoin(parts, '\n');
  }

  lemma {:induction false} NormalizeCrlfJoin(parts: seq<string>)
    requires |parts| >= 1
    requires forall k :: 0 <= k < |parts| ==> '\r' !in parts[k]
    ensures NormalizeNewlines(Join(parts, "\r\n")) == Join(parts, "\n")
  {
    if |parts| == 1 {
      NormalizeKeepsHead(parts[0], []);
    } else {
      var tail := Join(parts[1..], "\r\n");
      assert Join(parts, "\r\n") == parts[0] + ("\r\n" + tail);
      NormalizeKeepsHead(parts[0], "\r\n" + tail);
      assert ("\r\n" + tail)[2..] == tail;
      NormalizeCrlfJoin(parts[1..]);
    }
  }
}
