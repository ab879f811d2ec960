/** The handful of Python string operations the server's dispatcher relies
    on: `str.startswith`, `str.split()` (whitespace), `str.split(c, 1)`,
    `sep.join(...)` and the `in` test on characters. */
module Text {

  import opened Wrappers

  /** The characters `str.isspace()` accepts, which are exactly the ones
      `str.split()` without a separator cuts at. */
  predicate IsSpace(c: char)
  {
    var n := c as int;
    || (9 <= n <= 13)
    || (28 <= n <= 32)
    || n == 0x85
    || n == 0xA0
    || n == 0x1680
    || (0x2000 <= n <= 0x200A)
    || n == 0x2028
    || n == 0x2029
    || n == 0x202F
    || n == 0x205F
    || n == 0x3000
  }

  /** `s.startswith(prefix)` */
  predicate StartsWith(s: string, prefix: string)
  {
    |prefix| <= |s| && s[..|prefix|] == prefix
  }

  /** A token produced by `str.split()`: non-empty and free of whitespace. */
  predicate IsWord(w: string)
  {
    |w| > 0 && forall i :: 0 <= i < |w| ==> !IsSpace(w[i])
  }

  /** Length of the run of non-whitespace characters that starts `s`. */
  function WordLength(s: string): (n: nat)
    ensures n <= |s|
    ensures forall i :: 0 <= i < n ==> !IsSpace(s[i])
    ensures n < |s| ==> IsSpace(s[n])
  {
    if s == [] || IsSpace(s[0]) then 0 else 1 + WordLength(s[1..])
  }

  /** `s.split()`: the maximal whitespace-free runs of `s`, in order. */
  function Words(s: string): (ws: seq<string>)
    ensures forall i :: 0 <= i < |ws| ==> IsWord(ws[i])
    decreases |s|
  {
    if s == [] then []
    else if IsSpace(s[0]) then Words(s[1..])
    else
      var n := WordLength(s);
      [s[..n]] + Words(s[n..])
  }

  /** `sep.join(parts)` */
  function Join(parts: seq<string>, sep: string): string
  {
    if |parts| == 0 then []
    else if |parts| == 1 then parts[0]
    else parts[0] + sep + Join(parts[1..], sep)
  }

  /** Position of the first `c` in `s`, if there is one. */
  function IndexOf(s: string, c: char): (r: Option<nat>)
    ensures r.None? <==> c !in s
    ensures r.Some? ==> r.value < |s| && s[r.value] == c && c !in s[..r.value]
  {
    if s == [] then None
    else if s[0] == c then Some(0)
    else
      match IndexOf(s[1..], c)
      case None => None
      case Some(i) => Some(i + 1)
  }

  /** `s.split(c, 1)` on a string that contains `c`: the text before the
      first `c` and everything after it. */
  function SplitAtFirst(s: string, c: char): (parts: (string, string))
    requires c in s
    ensures parts.0 + [c] + parts.1 == s
    ensures c !in parts.0
  {
    var i := IndexOf(s, c).value;
    assert s == s[..i] + [c] + s[i + 1..];
    (s[..i], s[i + 1..])
  }

  /** The separator `", "` begins at position `j` of `s`. */
  predicate ListSepAt(s: string, j: int)
  {
    0 <= j && j + 1 < |s| && s[j] == ',' && s[j + 1] == ' '
  }

  /** Position of the first `", "` in `s`, if there is one. */
  function FindListSep(s: string): (r: Option<nat>)
    ensures r.Some? ==> ListSepAt(s, r.value)
    ensures r.Some? ==> forall j :: 0 <= j < r.value ==> !ListSepAt(s, j)
    ensures r.None? ==> forall j :: 0 <= j < |s| ==> !ListSepAt(s, j)
  {
    if |s| < 2 then None
    else if s[0] == ',' && s[1] == ' ' then Some(0)
    else
      match FindListSep(s[1..])
      case None =>
        assert forall j :: 1 <= j < |s| ==> ListSepAt(s, j) == ListSepAt(s[1..], j - 1);
        None
      case Some(i) =>
        assert forall j :: 1 <= j < |s| ==> ListSepAt(s, j) == ListSepAt(s[1..], j - 1);
        Some(i + 1)
  }

  /** `s.split(", ")`: the pieces of `s` between occurrences of `", "`.
      Used only by `Protocol.ParseWhoReply`, the inverse of `", ".join`. */
  function SplitList(s: string): seq<string>
    decreases |s|
  {
    match FindListSep(s)
    case None => [s]
    case Some(i) => [s[..i]] + SplitList(s[i + 2..])
  }

  // ---------------------------------------------------------------------
  // Round trips

  lemma {:induction false} WordLengthOfWord(w: string, rest: string)
    requires IsWord(w)
    requires rest == [] || IsSpace(rest[0])
    ensures WordLength(w + rest) == |w|
    decreases |w|
  {
    var s := w + rest;
    if |w| == 1 {
      assert s[1..] == rest;
    } else {
      assert s[1..] == w[1..] + rest;
      WordLengthOfWord(w[1..], rest);
    }
  }

  /** A word followed by whitespace (or by nothing) is the first token
      `str.split()` yields. */
  lemma WordsOfWordThen(w: string, rest: string)
    requires IsWord(w)
    requires rest == [] || IsSpace(rest[0])
    ensures Words(w + rest) == [w] + Words(rest)
  {
    var s := w + rest;
    WordLengthOfWord(w, rest);
    assert s[..|w|] == w;
    assert s[|w|..] == rest;
  }

  /** Splitting words joined with single spaces gives the words back:
      `" ".join(ws).split() == ws`. */
  lemma {:induction false} WordsOfJoin(ws: seq<string>)
    requires forall i :: 0 <= i < |ws| ==> IsWord(ws[i])
    ensures Words(Join(ws, " ")) == ws
  {
    if |ws| == 0 {
    } else if |ws| == 1 {
      WordsOfWordThen(ws[0], []);
      assert ws[0] + [] == ws[0];
    } else {
      var rest := Join(ws[1..], " ");
      assert Join(ws, " ") == ws[0] + (" " + rest);
      WordsOfWordThen(ws[0], " " + rest);
      assert (" " + rest)[1..] == rest;
      WordsOfJoin(ws[1..]);
    }
  }

  /** `(h + c + t).split(c, 1) == [h, t]` whenever `h` holds no `c`. */
  lemma SplitAtFirstOfJoined(h: string, c: char, t: string)
    requires c !in h
    ensures SplitAtFirst(h + [c] + t, c) == (h, t)
  {
    var s := h + [c] + t;
    assert s[|h|] == c;
    var i := IndexOf(s, c).value;
    if i != |h| {
      assert false;
    }
    assert s[..i] == h;
    assert s[i + 1..] == t;
  }

  lemma FirstListSep(p: string, rest: string)
    requires ' ' !in p
    ensures FindListSep(p + ", " + rest) == Some(|p|)
  {
    var s := p + ", " + rest;
    assert ListSepAt(s, |p|);
    forall j | 0 <= j < |p|
      ensures !ListSepAt(s, j)
    {
      if j + 1 < |p| {
        assert s[j + 1] == p[j + 1];
      } else {
        assert s[j + 1] == ',';
      }
    }
  }

  /** A non-empty list of items without spaces, joined with `", "`, splits
      back into exactly those items, in order. */
  lemma {:induction false} SplitListOfJoin(parts: seq<string>)
    requires |parts| > 0
    requires forall i :: 0 <= i < |parts| ==> ' ' !in parts[i]
    ensures SplitList(Join(parts, ", ")) == parts
  {
    if |parts| == 1 {
      var s := parts[0];
      match FindListSep(s)
      case None =>
      case Some(j) =>
        assert false;
    } else {
      var rest := Join(parts[1..], ", ");
      var s := parts[0] + ", " + rest;
      assert Join(parts, ", ") == s;
      FirstListSep(parts[0], rest);
      assert s[..|parts[0]|] == parts[0];
      assert s[|parts[0]| + 2..] == rest;
      SplitListOfJoin(parts[1..]);
    }
  }
}
