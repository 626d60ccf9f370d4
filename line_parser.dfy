/**
 * The telemetry line parser: one line of the monitoring daemon's text output
 * becomes either a record of NUM_METRICS numbers or "not a sample".
 *
 * Number parsing is not modelled: it is the parameter `parseNum`, a partial
 * function from a token to a number (None when the token is not a number).
 */
module LineParser {
  import opened Wrappers
  import Catalog

  /** Only lines with this prefix are samples of device 0. */
  const SAMPLE_PREFIX: string := "GPU 0"

  /** Number of tokens that must follow the leading "GPU" token: the entity id, then one per metric. */
  const FIELD_COUNT: nat := 12

  /** The characters a whitespace split separates on: the Unicode White_Space set. */
  predicate IsWhitespace(c: char) {
    || c == ' '
    || '\t' <= c <= '\r'
    || c == '\U{85}' || c == '\U{A0}' || c == '\U{1680}'
    || '\U{2000}' <= c <= '\U{200A}'
    || c == '\U{2028}' || c == '\U{2029}' || c == '\U{202F}' || c == '\U{205F}' || c == '\U{3000}'
  }

  /** A token: non-empty and free of whitespace. */
  predicate IsWord(w: string) {
    |w| > 0 && forall k :: 0 <= k < |w| ==> !IsWhitespace(w[k])
  }

  /** Length of the longest whitespace-free prefix of `s`. */
  function WordLength(s: string): (n: nat)
    ensures n <= |s|
    ensures forall k :: 0 <= k < n ==> !IsWhitespace(s[k])
    ensures n < |s| ==> IsWhitespace(s[n])
  {
    if s == [] || IsWhitespace(s[0]) then 0 else 1 + WordLength(s[1..])
  }

  /** The maximal whitespace-free runs of `s`, left to right. */
  function SplitWhitespace(s: string): (words: seq<string>)
    ensures forall i :: 0 <= i < |words| ==> IsWord(words[i])
    decreases |s|
  {
    if s == [] then []
    else if IsWhitespace(s[0]) then SplitWhitespace(s[1..])
    else
      var n := WordLength(s);
      [s[..n]] + SplitWhitespace(s[n..])
  }

  /** The words separated by single spaces: how a well-formed line is laid out. */
  function JoinWords(words: seq<string>): string {
    if words == [] then ""
    else if |words| == 1 then words[0]
    else words[0] + " " + JoinWords(words[1..])
  }

  /** A run of whitespace only (possibly empty): what separates the columns of a line. */
  predicate IsBlank(s: string) {
    forall k :: 0 <= k < |s| ==> IsWhitespace(s[k])
  }

  /**
   * The words laid out with arbitrary separators: seps[0] before the first
   * word, seps[i] between word i-1 and word i, and the last separator after
   * the last word.
   */
  function Interleave(seps: seq<string>, words: seq<string>): string
    requires |seps| == |words| + 1
    decreases |words|
  {
    if words == [] then seps[0] else seps[0] + words[0] + Interleave(seps[1..], words[1..])
  }

  /** The separators of a single-space layout of n words: none at the ends, one space between words. */
  function SingleSpaces(n: nat): (seps: seq<string>)
    requires 0 < n
    ensures |seps| == n + 1
    ensures seps[0] == "" && seps[n] == ""
    ensures forall i :: 0 < i < n ==> seps[i] == " "
    ensures forall i :: 0 <= i < |seps| ==> IsBlank(seps[i])
  {
    [""] + seq(n - 1, _ => " ") + [""]
  }

  /** What `skip(1)` leaves of a token list. */
  function DropFirst<T>(s: seq<T>): (r: seq<T>)
    ensures |s| > 0 ==> |r| == |s| - 1 && forall i :: 0 <= i < |r| ==> r[i] == s[i + 1]
    ensures s == [] ==> r == []
  {
    if s == [] then [] else s[1..]
  }

  /** The numbers among `parts`, in order; tokens that do not parse are skipped. */
  function FilterMap(parts: seq<string>, parseNum: string -> Option<real>): (values: seq<real>)
    ensures |values| <= |parts|
    ensures |values| == |parts| <==> forall i :: 0 <= i < |parts| ==> parseNum(parts[i]).Some?
    ensures |values| == |parts| ==> forall i :: 0 <= i < |parts| ==> values[i] == parseNum(parts[i]).value
  {
    if parts == [] then []
    else
      match parseNum(parts[0])
      case Some(v) => [v] + FilterMap(parts[1..], parseNum)
      case None => FilterMap(parts[1..], parseNum)
  }

  /**
   * When a line is a sample, stated without the parser's own steps: it has the
   * prefix, splits into the "GPU" token plus FIELD_COUNT more, and every one of
   * those FIELD_COUNT tokens is a number.
   */
  predicate IsSampleLine(line: string, parseNum: string -> Option<real>) {
    var words := SplitWhitespace(line);
    && SAMPLE_PREFIX <= line
    && |words| == FIELD_COUNT + 1
    && forall i :: 1 <= i < |words| ==> parseNum(words[i]).Some?
  }

  /**
   * Parse one telemetry line. All or nothing: the record is returned only when
   * every field parses, and it holds the fields after the entity id, in order.
   */
  function ParseMetricLine(line: string, parseNum: string -> Option<real>): (r: Option<seq<real>>)
    ensures r.Some? <==> IsSampleLine(line, parseNum)
    ensures r.Some? ==> |r.value| == Catalog.NUM_METRICS
    ensures r.Some? ==>
      forall i :: 0 <= i < |r.value| ==> r.value[i] == parseNum(SplitWhitespace(line)[i + 2]).value
  {
    if !(SAMPLE_PREFIX <= line) then None
    else
      var parts := DropFirst(SplitWhitespace(line));
      if |parts| != FIELD_COUNT then None
      else
        var values := FilterMap(parts, parseNum);
        if |values| == FIELD_COUNT then Some(values[1..]) else None
  }

  /** A whitespace-free prefix followed by whitespace (or nothing) is one word. */
  lemma {:induction false} WordLengthOfWord(w: string, rest: string)
    requires forall k :: 0 <= k < |w| ==> !IsWhitespace(w[k])
    requires rest == [] || IsWhitespace(rest[0])
    ensures WordLength(w + rest) == |w|
  {
    if w == [] {
      assert w + rest == rest;
    } else {
      assert (w + rest)[1..] == w[1..] + rest;
      WordLengthOfWord(w[1..], rest);
    }
  }

  /** Leading whitespace does not change the split. */
  lemma {:induction false} SplitBlankPrefix(b: string, rest: string)
    requires IsBlank(b)
    ensures SplitWhitespace(b + rest) == SplitWhitespace(rest)
  {
    if b == [] {
      assert b + rest == rest;
    } else {
      assert (b + rest)[0] == b[0];
      assert (b + rest)[1..] == b[1..] + rest;
      SplitBlankPrefix(b[1..], rest);
    }
  }

  /**
   * Splitting undoes any layout: words separated by non-empty runs of
   * whitespace, with optional whitespace before and after, split back into
   * exactly those words, however wide the gaps are.
   */
  lemma {:induction false} SplitInterleave(seps: seq<string>, words: seq<string>)
    requires |seps| == |words| + 1
    requires forall i :: 0 <= i < |seps| ==> IsBlank(seps[i])
    requires forall i :: 0 < i < |words| ==> seps[i] != []
    requires forall i :: 0 <= i < |words| ==> IsWord(words[i])
    ensures SplitWhitespace(Interleave(seps, words)) == words
    decreases |words|
  {
    if words == [] {
      assert seps[0] + "" == seps[0];
      SplitBlankPrefix(seps[0], "");
    } else {
      var w := words[0];
      var rest := Interleave(seps[1..], words[1..]);
      assert Interleave(seps, words) == seps[0] + (w + rest);
      SplitBlankPrefix(seps[0], w + rest);
      assert rest == [] || IsWhitespace(rest[0]) by {
        if |words| > 1 {
          assert rest == seps[1] + words[1] + Interleave(seps[2..], words[2..]);
          assert rest[0] == seps[1][0];
        } else {
          assert rest == seps[1];
        }
      }
      WordLengthOfWord(w, rest);
      assert (w + rest)[..|w|] == w;
      assert (w + rest)[|w|..] == rest;
      SplitInterleave(seps[1..], words[1..]);
      assert words == [w] + words[1..];
    }
  }

  /** A layout's first separator can be moved in front of it. */
  lemma LeadingSeparator(p: string, tail: seq<string>, words: seq<string>)
    requires |tail| == |words|
    ensures Interleave([p] + tail, words) == p + Interleave([""] + tail, words)
  {
    if words == [] {
      assert ([p] + tail)[0] == p;
    } else {
      assert ([p] + tail)[1..] == tail && ([""] + tail)[1..] == tail;
    }
  }

  /** Joining with single spaces is the layout with single-space separators. */
  lemma {:induction false} JoinIsInterleave(words: seq<string>)
    requires 0 < |words|
    ensures JoinWords(words) == Interleave(SingleSpaces(|words|), words)
    decreases |words|
  {
    var n := |words|;
    var seps := SingleSpaces(n);
    if n == 1 {
      assert Interleave(seps, words) == "" + words[0] + Interleave(seps[1..], words[1..]);
      assert seps[1..] == [""];
    } else {
      var inner := SingleSpaces(n - 1);
      assert seps[1..] == [" "] + inner[1..];
      assert [""] + inner[1..] == inner;
      LeadingSeparator(" ", inner[1..], words[1..]);
      JoinIsInterleave(words[1..]);
      assert Interleave(seps, words) == "" + words[0] + Interleave(seps[1..], words[1..]);
    }
  }

  /** Splitting undoes joining: laying words out with single spaces and splitting gives them back. */
  lemma SplitJoin(words: seq<string>)
    requires forall i :: 0 <= i < |words| ==> IsWord(words[i])
    ensures SplitWhitespace(JoinWords(words)) == words
  {
    if words != [] {
      JoinIsInterleave(words);
      SplitInterleave(SingleSpaces(|words|), words);
    }
  }

  /**
   * A line with the sample prefix splits into "GPU" followed by a token that
   * starts with the entity id '0': the token the parser drops from a record.
   */
  lemma SamplePrefixTokens(line: string)
    requires SAMPLE_PREFIX <= line
    ensures |SplitWhitespace(line)| >= 2
    ensures SplitWhitespace(line)[0] == "GPU"
    ensures SplitWhitespace(line)[1][0] == '0'
  {
    WordLengthOfWord("GPU", line[3..]);
    assert line == "GPU" + line[3..];
    assert line[..3] == "GPU";
    var t := line[3..];
    assert t[0] == ' ' && t[1] == '0';
    assert t[1..][0] == '0';
    assert SplitWhitespace(line) == ["GPU"] + SplitWhitespace(t);
    assert SplitWhitespace(t) == SplitWhitespace(t[1..]);
  }

  /**
   * Parser round trip for column-aligned lines: the tag, the entity id and one
   * numeric token per metric, separated by runs of whitespace of any width
   * (a single space after the tag, as the sample prefix demands), parse to
   * exactly the metric values.
   */
  lemma FormattedLineParses(seps: seq<string>, fields: seq<string>, vals: seq<real>, parseNum: string -> Option<real>)
    requires |fields| == |vals| == Catalog.NUM_METRICS
    requires |seps| == |fields| + 3
    requires seps[0] == "" && seps[1] == " "
    requires forall i :: 0 <= i < |seps| ==> IsBlank(seps[i])
    requires forall i :: 2 <= i < |seps| - 1 ==> seps[i] != []
    requires forall i :: 0 <= i < |fields| ==> IsWord(fields[i]) && parseNum(fields[i]) == Some(vals[i])
    requires parseNum("0").Some?
    ensures ParseMetricLine(Interleave(seps, ["GPU", "0"] + fields), parseNum) == Some(vals)
  {
    var words := ["GPU", "0"] + fields;
    assert IsWord("GPU") && IsWord("0");
    assert forall i :: 0 <= i < |words| ==> IsWord(words[i]) by {
      forall i | 0 <= i < |words| ensures IsWord(words[i]) {
        if i >= 2 { assert words[i] == fields[i - 2]; }
      }
    }
    SplitInterleave(seps, words);
    assert words[1..] == ["0"] + fields;
    assert words[1..][1..] == fields;
    var line := Interleave(seps, words);
    assert line == "" + "GPU" + (" " + "0" + Interleave(seps[2..], fields));
    assert line[..5] == SAMPLE_PREFIX;
    var r := ParseMetricLine(line, parseNum);
    assert IsSampleLine(line, parseNum) by {
      forall i | 1 <= i < |words| ensures parseNum(words[i]).Some? {
        if i >= 2 { assert words[i] == fields[i - 2]; }
      }
    }
    assert r.value == vals by {
      forall i | 0 <= i < |vals| ensures r.value[i] == vals[i] {
        assert words[i + 2] == fields[i];
      }
    }
  }

  /** Joining a word onto a non-empty list puts one space between them. */
  lemma JoinCons(w: string, rest: seq<string>)
    requires rest != []
    ensures JoinWords([w] + rest) == w + " " + JoinWords(rest)
  {
    assert ([w] + rest)[1..] == rest;
  }

  /** Each token of the worked example is a word that parses to its value. */
  lemma ExampleFieldsParse(fields: seq<string>, vals: seq<real>, parseNum: string -> Option<real>)
    requires fields == ["5", "10", "0", "0", "0", "0", "0", "0", "0", "0", "0"]
    requires vals == [5.0, 10.0, 0.0, 0.0, 0.0, 0.0, 0.0, 0.0, 0.0, 0.0, 0.0]
    requires parseNum("0") == Some(0.0) && parseNum("5") == Some(5.0) && parseNum("10") == Some(10.0)
    ensures forall i :: 0 <= i < |fields| ==> IsWord(fields[i]) && parseNum(fields[i]) == Some(vals[i])
  {
  }

  /** The worked example's line is the single-space layout of its tokens. */
  lemma ExampleLayout(line: string, fields: seq<string>)
    requires line == "GPU 0 5 10 0 0 0 0 0 0 0 0 0"
    requires fields == ["5", "10", "0", "0", "0", "0", "0", "0", "0", "0", "0"]
    ensures JoinWords(["GPU", "0"] + fields) == line
  {
    var w1: seq<string> := ["0"];
    var w2 := ["0"] + w1; JoinCons("0", w1);
    var w3 := ["0"] + w2; JoinCons("0", w2);
    var w4 := ["0"] + w3; JoinCons("0", w3);
    var w5 := ["0"] + w4; JoinCons("0", w4);
    var w6 := ["0"] + w5; JoinCons("0", w5);
    var w7 := ["0"] + w6; JoinCons("0", w6);
    var w8 := ["0"] + w7; JoinCons("0", w7);
    var w9 := ["0"] + w8; JoinCons("0", w8);
    var w10 := ["10"] + w9; JoinCons("10", w9);
    var w11 := ["5"] + w10; JoinCons("5", w10);
    var w12 := ["0"] + w11; JoinCons("0", w11);
    var w13 := ["GPU"] + w12; JoinCons("GPU", w12);
    var text: string := "GPU" + " " + ("0" + " " + ("5" + " " + ("10" + " " + ("0" + " " + ("0" + " "
      + ("0" + " " + ("0" + " " + ("0" + " " + ("0" + " " + ("0" + " " + ("0" + " " + "0")))))))))));
    assert JoinWords(w13) == text;
    assert forall i :: 0 <= i < 28 ==> text[i] == line[i];
    assert w13 == ["GPU", "0"] + fields;
  }

  /**
   * The worked example: a device-0 row whose entity id is 0 and whose values
   * are 5, 10 and nine zeros yields those eleven values; the id is dropped.
   */
  lemma ExampleRow(line: string, parseNum: string -> Option<real>)
    requires line == "GPU 0 5 10 0 0 0 0 0 0 0 0 0"
    requires parseNum("0") == Some(0.0) && parseNum("5") == Some(5.0) && parseNum("10") == Some(10.0)
    ensures ParseMetricLine(line, parseNum) == Some([5.0, 10.0, 0.0, 0.0, 0.0, 0.0, 0.0, 0.0, 0.0, 0.0, 0.0])
  {
    var fields := ["5", "10", "0", "0", "0", "0", "0", "0", "0", "0", "0"];
    var vals := [5.0, 10.0, 0.0, 0.0, 0.0, 0.0, 0.0, 0.0, 0.0, 0.0, 0.0];
    ExampleLayout(line, fields);
    ExampleFieldsParse(fields, vals, parseNum);
    var words := ["GPU", "0"] + fields;
    var seps := SingleSpaces(|words|);
    JoinIsInterleave(words);
    FormattedLineParses(seps, fields, vals, parseNum);
  }
}
