/**
 * Parsing of the opening handshake request as the server does it: CR LF is
 * normalised to LF, the text is split into lines, a line starting with
 * "GET" (in any case) is kept as the request line under the key "", and
 * every other line is split at its first colon into a header name and a
 * value. The request is answered only if it carries `Sec-WebSocket-Key`.
 */
module Request {
  import opened Wrappers
  import opened Text

  /** The header whose presence makes a request a WebSocket opening handshake. */
  const KeyHeader: string := "Sec-WebSocket-Key"

  /** `stripos($line, "GET") === 0`: the line starts with GET, in any letter case. */
  predicate IsRequestLine(line: string): (ok: bool)
    ensures ok ==> |line| >= 3
    ensures "GET" <= line || "get" <= line || "Get" <= line ==> ok
  {
    |line| >= 3 && line[0] in "Gg" && line[1] in "Ee" && line[2] in "Tt"
  }

  /** PHP `empty()` of a string: only "" and "0" are empty. */
  predicate IsEmptyPhp(s: string): (empty: bool)
    ensures empty ==> |s| <= 1
    ensures empty && s != [] ==> s[0] == '0'
  {
    s == "" || s == "0"
  }

  /**
   * `array_pad(explode(":", $line, 2), 2, null)`: the text before the first
   * colon and, when there is a colon, the text after it.
   */
  function SplitField(line: string): (kv: (string, Option<string>))
    ensures kv.1.None? <==> ':' !in line
    ensures kv.1.None? ==> kv.0 == line
    ensures kv.1.Some? ==> ':' !in kv.0 && kv.0 + ":" + kv.1.value == line
  {
    if line == [] then ("", None)
    else if line[0] == ':' then ("", Some(line[1..]))
    else
      var rest := SplitField(line[1..]);
      assert line == [line[0]] + line[1..];
      ([line[0]] + rest.0, rest.1)
  }

  /**
   * The entry one line of the request writes into the header map, if any:
   * a request line under "", or a `name: value` line whose name and
   * untrimmed value are both non-empty in PHP's sense, with the value trimmed.
   */
  function Binding(line: string): (b: Option<(string, string)>)
    ensures IsRequestLine(line) ==> b == Some(("", line))
    ensures !IsRequestLine(line) && b.Some? ==>
              !IsEmptyPhp(b.value.0) && ':' !in b.value.0 && ':' in line
              && |b.value.0| < |line| && line[..|b.value.0|] == b.value.0
              && line[|b.value.0|] == ':'
              && !IsEmptyPhp(line[|b.value.0| + 1..])
              && b.value.1 == Trim(line[|b.value.0| + 1..], WhitespaceChars)
  {
    if IsRequestLine(line) then Some(("", line))
    else
      var (key, val) := SplitField(line);
      if !IsEmptyPhp(key) && val.Some? && !IsEmptyPhp(val.value) then
        assert line[..|key|] == key && line[|key|] == ':' && line[|key| + 1..] == val.value by {
          assert line == key + (":" + val.value);
        }
        Some((key, Trim(val.value, WhitespaceChars)))
      else None
  }

  /**
   * A header line `name:value` is read back as its name and its trimmed
   * value, when the name holds no colon and neither part is empty in PHP's
   * sense.
   */
  lemma HeaderLineBinding(name: string, value: string)
    requires ':' !in name && !IsEmptyPhp(name) && !IsEmptyPhp(value)
    requires !IsRequestLine(name + ":" + value)
    ensures Binding(name + ":" + value) == Some((name, Trim(value, WhitespaceChars)))
  {
    SplitFieldAtColon(name, value);
  }

  /** A line whose name holds no colon splits at the colon right after the name. */
  lemma {:induction false} SplitFieldAtColon(name: string, value: string)
    requires ':' !in name
    ensures SplitField(name + ":" + value) == (name, Some(value))
  {
    if name != [] {
      var line := name + ":" + value;
      assert line[0] == name[0] && name[0] != ':';
      assert line[1..] == name[1..] + ":" + value;
      SplitFieldAtColon(name[1..], value);
      assert [name[0]] + name[1..] == name;
    }
  }

  /** The line writes an entry under `key`. */
  predicate Binds(line: string, key: string)
  {
    Binding(line).Some? && Binding(line).value.0 == key
  }

  /** The entries the lines write, one per line, in order. */
  function Entries(lines: seq<string>): (entries: seq<Option<(string, string)>>)
    ensures |entries| == |lines|
    ensures forall i :: 0 <= i < |lines| ==> entries[i] == Binding(lines[i])
  {
    seq(|lines|, i requires 0 <= i < |lines| => Binding(lines[i]))
  }

  /** The entry writes `key`. */
  predicate Writes(entry: Option<(string, string)>, key: string)
  {
    entry.Some? && entry.value.0 == key
  }

  /** The map after the entries are written in order, later entries overwriting earlier ones. */
  function Fold(entries: seq<Option<(string, string)>>): map<string, string>
  {
    if entries == [] then map[]
    else
      var before := Fold(entries[..|entries| - 1]);
      match entries[|entries| - 1]
      case None => before
      case Some(kv) => before[kv.0 := kv.1]
  }

  /** The header map after the lines have been processed in order. */
  function HeadersOf(lines: seq<string>): map<string, string>
  {
    Fold(Entries(lines))
  }

  /**
   * The header-reading loop: fills the map line by line. The request text is
   * the bytes of the first read, one character per byte.
   */
  method ParseHeaders(request: string) returns (headers: map<string, string>)
    ensures headers == HeadersOf(Lines(request))
  {
    var lines := Lines(request);
    ghost var entries := Entries(lines);
    headers := map[];
    for i := 0 to |lines|
      invariant headers == Fold(entries[..i])
    {
      var line := lines[i];
      FoldStep(entries, i);
      BindingSteps(line);
      if IsRequestLine(line) {
        headers := headers["" := line];
      } else {
        var (key, val) := SplitField(line);
        if !IsEmptyPhp(key) && val.Some? && !IsEmptyPhp(val.value) {
          headers := headers[key := Trim(val.value, WhitespaceChars)];
        }
      }
    }
    assert entries[..|lines|] == entries;
  }

  /** Folding one more entry writes it over the map of the entries before it. */
  lemma FoldStep(entries: seq<Option<(string, string)>>, i: nat)
    requires i < |entries|
    ensures Fold(entries[..i + 1]) == match entries[i]
                                      case None => Fold(entries[..i])
                                      case Some(kv) => Fold(entries[..i])[kv.0 := kv.1]
  {
    assert entries[..i + 1][..i] == entries[..i];
  }

  /** The steps the header loop takes for one line, which together give `Binding(line)`. */
  lemma BindingSteps(line: string)
    ensures IsRequestLine(line) ==> Binding(line) == Some(("", line))
    ensures !IsRequestLine(line) ==>
              var (key, val) := SplitField(line);
              Binding(line) == if !IsEmptyPhp(key) && val.Some? && !IsEmptyPhp(val.value)
                               then Some((key, Trim(val.value, WhitespaceChars))) else None
  {
  }

  /** One more entry either writes `key` or leaves its value as it was. */
  lemma FoldLast(entries: seq<Option<(string, string)>>, key: string)
    requires entries != []
    ensures var last := entries[|entries| - 1];
            var before := Fold(entries[..|entries| - 1]);
            if Writes(last, key) then key in Fold(entries) && Fold(entries)[key] == last.value.1
            else (key in Fold(entries) <==> key in before)
                 && (key in before ==> Fold(entries)[key] == before[key])
  {
  }

  /** A name is in the folded map exactly when some entry writes it. */
  lemma {:induction false} FoldPresent(entries: seq<Option<(string, string)>>, key: string)
    ensures key in Fold(entries) <==> exists i :: 0 <= i < |entries| && Writes(entries[i], key)
  {
    if entries != [] {
      var n := |entries| - 1;
      var init := entries[..n];
      FoldLast(entries, key);
      FoldPresent(init, key);
      assert forall i :: 0 <= i < n ==> entries[i] == init[i];
    }
  }

  /** The value under a name is the one of the last entry writing it, whose index is returned. */
  lemma {:induction false} FoldValue(entries: seq<Option<(string, string)>>, key: string) returns (i: nat)
    requires key in Fold(entries)
    ensures i < |entries| && entries[i] == Some((key, Fold(entries)[key]))
    ensures forall j :: i < j < |entries| ==> !Writes(entries[j], key)
  {
    var n := |entries| - 1;
    var init := entries[..n];
    FoldLast(entries, key);
    if Writes(entries[n], key) {
      i := n;
    } else {
      i := FoldValue(init, key);
      assert entries[i] == init[i];
      forall j | i < j < |entries|
        ensures !Writes(entries[j], key)
      {
        if j < n {
          assert entries[j] == init[j];
        }
      }
    }
  }

  /**
   * A name is in the header map exactly when some line binds it; for the
   * name "" these are the lines starting with GET.
   */
  lemma HeaderPresent(lines: seq<string>, key: string)
    ensures key in HeadersOf(lines) <==> exists i :: 0 <= i < |lines| && Binds(lines[i], key)
  {
    var entries := Entries(lines);
    FoldPresent(entries, key);
    if key in HeadersOf(lines) {
      var i :| 0 <= i < |entries| && Writes(entries[i], key);
      assert Binds(lines[i], key);
    }
    if exists i :: 0 <= i < |lines| && Binds(lines[i], key) {
      var i :| 0 <= i < |lines| && Binds(lines[i], key);
      assert Writes(entries[i], key);
    }
  }

  /**
   * The value under a name is the one written by the last line that binds
   * it, whose index is returned: later header lines overwrite earlier ones.
   */
  lemma HeaderValue(lines: seq<string>, key: string) returns (i: nat)
    requires key in HeadersOf(lines)
    ensures i < |lines| && Binding(lines[i]) == Some((key, HeadersOf(lines)[key]))
    ensures forall j :: i < j < |lines| ==> !Binds(lines[j], key)
  {
    var entries := Entries(lines);
    i := FoldValue(entries, key);
    forall j | i < j < |lines|
      ensures !Binds(lines[j], key)
    {
      assert !Writes(entries[j], key);
    }
  }

  /** Every name in the header map is "" (the request line) or a non-empty name without a colon. */
  lemma HeaderNames(lines: seq<string>)
    ensures forall key :: key in HeadersOf(lines) ==> key == "" || (!IsEmptyPhp(key) && ':' !in key)
  {
    forall key | key in HeadersOf(lines)
      ensures key == "" || (!IsEmptyPhp(key) && ':' !in key)
    {
      var i := HeaderValue(lines, key);
    }
  }

  /** A binding that no later line overrides is the value in the map. */
  lemma LastBindingWins(lines: seq<string>, i: nat, key: string, value: string)
    requires i < |lines| && Binding(lines[i]) == Some((key, value))
    requires forall j :: i < j < |lines| ==> !Binds(lines[j], key)
    ensures key in HeadersOf(lines) && HeadersOf(lines)[key] == value
  {
    assert Binds(lines[i], key);
    HeaderPresent(lines, key);
    var last := HeaderValue(lines, key);
    assert Binds(lines[last], key);
    assert last == i;
  }

  /** A request is answered only when it carries `Sec-WebSocket-Key`. */
  predicate HasKey(headers: map<string, string>)
  {
    KeyHeader in headers
  }
}
