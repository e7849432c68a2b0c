/**
  The JavaScript string built-ins the file-name helpers rely on, on strings
  seen as sequences of Unicode scalar values (`seq<char>`; a JavaScript string
  is a sequence of UTF-16 code units, which differs only for characters
  outside the Basic Multilingual Plane and lone surrogates):
  `toLowerCase` (per character, ASCII letters only), `lastIndexOf` for one
  character, `substring` with its clamping and swapping of arguments, and
  `split` on one character together with `pop` of the last piece.
  `ToUpperCase` (ASCII letters only) and `Join`, the inverse of `Split`, are
  not used by the helpers; they serve to state properties.
 */
module JsStrings {

  // ---------------------------------------------------------------------------
  // Case mapping
  // ---------------------------------------------------------------------------

  /** Lower-case form of one character: 'A'..'Z' map to 'a'..'z', everything else is kept. */
  function LowerChar(c: char): char {
    if 'A' <= c <= 'Z' then (c as int - 'A' as int + 'a' as int) as char else c
  }

  /** Upper-case form of one character: 'a'..'z' map to 'A'..'Z', everything else is kept. */
  function UpperChar(c: char): char {
    if 'a' <= c <= 'z' then (c as int - 'a' as int + 'A' as int) as char else c
  }

  /** `s.toLowerCase()`, one character at a time. */
  function ToLowerCase(s: string): string {
    seq(|s|, i requires 0 <= i < |s| => LowerChar(s[i]))
  }

  /** ASCII upper-casing, one character at a time; used only to state that
      detection ignores the case of ASCII letters. */
  function ToUpperCase(s: string): string {
    seq(|s|, i requires 0 <= i < |s| => UpperChar(s[i]))
  }

  /** No letter of `s` is an upper-case ASCII letter. */
  predicate IsLowerCase(s: string) {
    forall i :: 0 <= i < |s| ==> !('A' <= s[i] <= 'Z')
  }

  /** Lowering keeps the length, produces a lower-case string, fixes lower-case
      strings, and only ever turns a '.' into a '.'. */
  lemma LowerCaseFacts(s: string)
    ensures |ToLowerCase(s)| == |s|
    ensures IsLowerCase(ToLowerCase(s))
    ensures IsLowerCase(s) ==> ToLowerCase(s) == s
    ensures ToLowerCase(ToLowerCase(s)) == ToLowerCase(s)
    ensures forall i :: 0 <= i < |s| ==> (ToLowerCase(s)[i] == '.' <==> s[i] == '.')
  {
  }

  /** Lowering distributes over concatenation. */
  lemma LowerCaseAppend(a: string, b: string)
    ensures ToLowerCase(a + b) == ToLowerCase(a) + ToLowerCase(b)
  {
  }

  /** Lowering an upper-cased string is the same as lowering the string. */
  lemma LowerOfUpperCase(s: string)
    ensures ToLowerCase(ToUpperCase(s)) == ToLowerCase(s)
  {
  }

  /** Lowering neither adds nor removes a given separator character. */
  lemma LowerCaseKeepsDotFree(s: string)
    ensures '.' in ToLowerCase(s) <==> '.' in s
  {
    LowerCaseFacts(s);
    if '.' in s {
      var i :| 0 <= i < |s| && s[i] == '.';
      assert ToLowerCase(s)[i] == '.';
    }
    if '.' in ToLowerCase(s) {
      var i :| 0 <= i < |ToLowerCase(s)| && ToLowerCase(s)[i] == '.';
      assert s[i] == '.';
    }
  }

  // ---------------------------------------------------------------------------
  // lastIndexOf and substring
  // ---------------------------------------------------------------------------

  /** `s.lastIndexOf(c)`: the position of the last occurrence of `c`, or -1 when there is none. */
  function LastIndexOf(s: string, c: char): (i: int)
    ensures -1 <= i < |s|
    ensures i == -1 <==> c !in s
    ensures 0 <= i ==> s[i] == c
    ensures forall j :: i < j < |s| ==> s[j] != c
  {
    if |s| == 0 then -1
    else if s[|s| - 1] == c then |s| - 1
    else LastIndexOf(s[..|s| - 1], c)
  }

  /** The last occurrence of a character is the one just before a piece that does not contain it. */
  lemma {:induction false} LastIndexOfSplit(p: string, c: char, q: string)
    requires c !in q
    ensures LastIndexOf(p + [c] + q, c) == |p|
    decreases |q|
  {
    var s := p + [c] + q;
    if |q| > 0 {
      var q' := q[..|q| - 1];
      assert s[|s| - 1] == q[|q| - 1] != c;
      assert s[..|s| - 1] == p + [c] + q';
      LastIndexOfSplit(p, c, q');
    }
  }

  /** Lowering leaves the position of the last '.' where it was. */
  lemma {:induction false} LastDotOfLowerCase(s: string)
    ensures LastIndexOf(ToLowerCase(s), '.') == LastIndexOf(s, '.')
    decreases |s|
  {
    if |s| > 0 {
      var t := ToLowerCase(s);
      var s' := s[..|s| - 1];
      assert t[..|t| - 1] == ToLowerCase(s');
      assert t[|t| - 1] == '.' <==> s[|s| - 1] == '.';
      LastDotOfLowerCase(s');
    }
  }

  /** An index argument of `substring` clamped to `[0, len]`. */
  function Clamp(k: int, len: nat): (r: nat)
    ensures r <= len
    ensures 0 <= k <= len ==> r == k
  {
    if k < 0 then 0 else if k > len then len else k
  }

  /** `s.substring(start, end)`: both arguments are clamped to the string, and
      when the first exceeds the second they are swapped. */
  function Substring(s: string, start: int, end: int): (r: string)
  {
    var a := Clamp(start, |s|);
    var b := Clamp(end, |s|);
    if a <= b then s[a..b] else s[b..a]
  }

  /** The behaviour of `substring` that matters to callers: in range it is a
      slice, the order of its arguments is irrelevant, and a negative end
      with start 0 gives the empty string. */
  lemma SubstringFacts(s: string, start: int, end: int)
    ensures 0 <= start <= end <= |s| ==> Substring(s, start, end) == s[start..end]
    ensures Substring(s, start, end) == Substring(s, end, start)
    ensures end < 0 ==> Substring(s, 0, end) == []
    ensures |Substring(s, start, end)| <= |s|
  {
  }

  // ---------------------------------------------------------------------------
  // split, pop and join
  // ---------------------------------------------------------------------------

  /** `s.split(sep)` for a one-character separator: the pieces of `s` between
      separators, in order.  There is always at least one piece, and no piece
      contains the separator; the last piece is what follows the last
      separator, or all of `s` when there is none. */
  function Split(s: string, sep: char): (parts: seq<string>)
    ensures |parts| >= 1
    ensures forall k :: 0 <= k < |parts| ==> sep !in parts[k]
    decreases |s|
  {
    var i := LastIndexOf(s, sep);
    if i < 0 then [s]
    else
      var last := s[i + 1..];
      assert sep !in last by {
        assert forall k :: 0 <= k < |last| ==> last[k] == s[i + 1 + k];
      }
      Split(s[..i], sep) + [last]
  }

  /** `parts.join(sep)`. */
  function Join(parts: seq<string>, sep: char): string
    requires |parts| >= 1
  {
    if |parts| == 1 then parts[0]
    else Join(parts[..|parts| - 1], sep) + [sep] + parts[|parts| - 1]
  }

  /** `array.pop()` on a non-empty array, seen through its result only. */
  function Pop<T>(xs: seq<T>): T
    requires |xs| >= 1
  {
    xs[|xs| - 1]
  }

  /** Joining the pieces of a split gives back the string. */
  lemma {:induction false} JoinSplit(s: string, sep: char)
    ensures Join(Split(s, sep), sep) == s
    decreases |s|
  {
    var i := LastIndexOf(s, sep);
    if i >= 0 {
      var init := Split(s[..i], sep);
      JoinSplit(s[..i], sep);
      var parts := init + [s[i + 1..]];
      assert parts[..|parts| - 1] == init;
      assert s == s[..i] + [sep] + s[i + 1..];
    }
  }

  /** A separator followed by a separator-free text becomes a new last piece. */
  lemma SplitAppendPiece(x: string, sep: char, y: string)
    requires sep !in y
    ensures Split(x + [sep] + y, sep) == Split(x, sep) + [y]
  {
    var s := x + [sep] + y;
    LastIndexOfSplit(x, sep, y);
    assert s[..|x|] == x;
    assert s[|x| + 1..] == y;
  }

  /** Splitting the join of separator-free pieces gives back the pieces. */
  lemma {:induction false} SplitJoin(parts: seq<string>, sep: char)
    requires |parts| >= 1
    requires forall k :: 0 <= k < |parts| ==> sep !in parts[k]
    ensures Split(Join(parts, sep), sep) == parts
  {
    if |parts| == 1 {
    } else {
      var init := parts[..|parts| - 1];
      var last := parts[|parts| - 1];
      assert forall k :: 0 <= k < |init| ==> init[k] == parts[k];
      SplitJoin(init, sep);
      var j := Join(init, sep);
      assert Join(parts, sep) == j + [sep] + last;
      SplitAppendPiece(j, sep, last);
      assert Split(j, sep) == init;
      assert parts == init + [last];
    }
  }

  /** `s.split(sep).pop()` is the text after the last separator, or all of `s` when there is none. */
  lemma PopSplitAfterLastIndex(s: string, sep: char)
    ensures Pop(Split(s, sep)) == s[LastIndexOf(s, sep) + 1..]
  {
  }
}
