/** The .NET string primitives the parser and the reader rely on, over
    strings as sequences of characters: `IndexOf`/`LastIndexOf` of one
    character, compared character by character (GPS.cs's one-character
    string searches are culture-sensitive; the model does not follow
    that), `Split` on one separator (with `Join` as its inverse), and
    `Trim` with the `char.IsWhiteSpace` set of the .NET base library. */
module Text {

  /** `String.IndexOf(c)`: the first position of `c`, or -1 when absent. */
  function IndexOf(s: seq<char>, c: char): (i: int)
    ensures -1 <= i < |s|
    ensures i == -1 <==> c !in s
    ensures 0 <= i ==> s[i] == c && c !in s[..i]
    decreases |s|
  {
    if |s| == 0 then -1
    else if s[0] == c then 0
    else
      var k := IndexOf(s[1..], c);
      if k == -1 then
        assert s == [s[0]] + s[1..];
        -1
      else
        assert s[..k + 1] == [s[0]] + s[1..][..k];
        k + 1
  }

  /** `String.LastIndexOf(c)`: the last position of `c`, or -1 when absent. */
  function LastIndexOf(s: seq<char>, c: char): (i: int)
    ensures -1 <= i < |s|
    ensures i == -1 <==> c !in s
    ensures 0 <= i ==> s[i] == c && c !in s[i + 1..]
    decreases |s|
  {
    if |s| == 0 then -1
    else if s[|s| - 1] == c then |s| - 1
    else
      var init := s[..|s| - 1];
      var k := LastIndexOf(init, c);
      if k == -1 then
        assert s == init + [s[|s| - 1]];
        -1
      else
        assert s[k + 1..] == init[k + 1..] + [s[|s| - 1]];
        k
  }

  /** `s.IndexOf(p) == 0` for an ordinal search: `s` begins with `p`. */
  predicate StartsWith(s: seq<char>, p: seq<char>)
  {
    |p| <= |s| && s[..|p|] == p
  }

  /** Number of occurrences of `d` in `s`. */
  function Count(s: seq<char>, d: char): nat
  {
    if |s| == 0 then 0 else (if s[0] == d then 1 else 0) + Count(s[1..], d)
  }

  /** `String.Split(d)`: the maximal `d`-free pieces between the occurrences
      of `d`, empty pieces included, so there is always at least one. */
  function Split(s: seq<char>, d: char): (parts: seq<seq<char>>)
    ensures |parts| >= 1 && |parts[0]| <= |s|
    ensures forall k :: 0 <= k < |parts| ==> d !in parts[k]
    ensures d in s ==> |parts| >= 2 && parts[0] == s[..IndexOf(s, d)] && |parts[1]| < |s|
    ensures d !in s ==> parts == [s]
    decreases |s|
  {
    var i := IndexOf(s, d);
    if i == -1 then [s]
    else [s[..i]] + Split(s[i + 1..], d)
  }

  /** `String.Join(d, parts)`: the inverse of `Split`. */
  function Join(parts: seq<seq<char>>, d: char): seq<char>
    requires |parts| >= 1
  {
    if |parts| == 1 then parts[0] else parts[0] + [d] + Join(parts[1..], d)
  }

  /** One step of `Split`: the piece before the first separator, then the
      split of the rest. */
  lemma SplitStep(s: seq<char>, d: char)
    requires d in s
    ensures var i := IndexOf(s, d);
            && Split(s, d) == [s[..i]] + Split(s[i + 1..], d)
            && s == s[..i] + [d] + s[i + 1..]
  {
    Around(s, IndexOf(s, d));
  }

  /** A string is what lies before position `i`, the character there, and
      what lies after. */
  lemma Around(s: seq<char>, i: nat)
    requires i < |s|
    ensures s == s[..i] + [s[i]] + s[i + 1..]
  {
  }

  /** `s` with its first `d` at position `|pre|`. */
  lemma IndexOfJoined(pre: seq<char>, d: char, post: seq<char>)
    requires d !in pre
    ensures var s := pre + [d] + post;
            && IndexOf(s, d) == |pre|
            && s[..|pre|] == pre && s[|pre| + 1..] == post
  {
    var s := pre + [d] + post;
    assert s[|pre|] == d && s[..|pre|] == pre;
    assert s[|pre| + 1..] == post;
  }

  /** Joining the pieces of a split gives back the original string. */
  lemma {:induction false} JoinSplit(s: seq<char>, d: char)
    ensures Join(Split(s, d), d) == s
    decreases |s|
  {
    if d in s {
      var i := IndexOf(s, d);
      var rest := Split(s[i + 1..], d);
      SplitStep(s, d);
      JoinSplit(s[i + 1..], d);
      var parts := [s[..i]] + rest;
      assert parts[0] == s[..i] && parts[1..] == rest;
      assert Join(parts, d) == s[..i] + [d] + Join(rest, d);
    }
  }

  /** Splitting a join of `d`-free pieces gives back the pieces. */
  lemma {:induction false} SplitJoin(parts: seq<seq<char>>, d: char)
    requires |parts| >= 1
    requires forall k :: 0 <= k < |parts| ==> d !in parts[k]
    ensures Split(Join(parts, d), d) == parts
    decreases |parts|
  {
    if |parts| > 1 {
      var rest := Join(parts[1..], d);
      assert Join(parts, d) == parts[0] + [d] + rest;
      IndexOfJoined(parts[0], d, rest);
      SplitStep(Join(parts, d), d);
      SplitJoin(parts[1..], d);
      assert parts == [parts[0]] + parts[1..];
    }
  }

  /** A split has exactly one more piece than there are separators. */
  lemma {:induction false} SplitCount(s: seq<char>, d: char)
    ensures |Split(s, d)| == Count(s, d) + 1
    decreases |s|
  {
    var i := IndexOf(s, d);
    if i == -1 {
      CountAbsent(s, d);
    } else {
      SplitCount(s[i + 1..], d);
      CountAppend(s[..i], s[i..], d);
      assert s == s[..i] + s[i..];
      CountAbsent(s[..i], d);
      assert s[i..][1..] == s[i + 1..];
    }
  }

  lemma {:induction false} CountAbsent(s: seq<char>, d: char)
    requires d !in s
    ensures Count(s, d) == 0
    decreases |s|
  {
    if |s| > 0 {
      CountAbsent(s[1..], d);
    }
  }

  lemma {:induction false} CountAppend(a: seq<char>, b: seq<char>, d: char)
    ensures Count(a + b, d) == Count(a, d) + Count(b, d)
    decreases |a|
  {
    if |a| > 0 {
      assert (a + b)[1..] == a[1..] + b;
      CountAppend(a[1..], b, d);
    } else {
      assert a + b == b;
    }
  }

  /** `char.IsWhiteSpace` of the .NET base library: the Unicode space,
      line and paragraph separators plus the controls U+0009..U+000D and
      U+0085. */
  predicate IsWhiteSpace(c: char)
  {
    || c == ' '
    || ('\t' <= c <= '\r')
    || c == '\U{0085}'
    || c == '\U{00A0}'
    || c == '\U{1680}'
    || ('\U{2000}' <= c <= '\U{200A}')
    || c == '\U{2028}'
    || c == '\U{2029}'
    || c == '\U{202F}'
    || c == '\U{205F}'
    || c == '\U{3000}'
  }

  predicate AllWhiteSpace(s: seq<char>)
  {
    forall i :: 0 <= i < |s| ==> IsWhiteSpace(s[i])
  }

  /** The length of the leading run of white space. */
  function LeadingWhiteSpace(s: seq<char>): (k: nat)
    ensures k <= |s|
    decreases |s|
  {
    if |s| == 0 || !IsWhiteSpace(s[0]) then 0
    else LeadingWhiteSpace(s[1..]) + 1
  }

  /** The leading run is white space and stops at the first character
      that is not. */
  lemma {:induction false} LeadingSpec(s: seq<char>)
    ensures var k := LeadingWhiteSpace(s);
            AllWhiteSpace(s[..k]) && (k == |s| || !IsWhiteSpace(s[k]))
    decreases |s|
  {
    if |s| > 0 && IsWhiteSpace(s[0]) {
      var k := LeadingWhiteSpace(s[1..]);
      LeadingSpec(s[1..]);
      assert s[..k + 1] == [s[0]] + s[1..][..k];
    }
  }

  /** Where the trailing run of white space begins. */
  function TrailingWhiteSpace(s: seq<char>): (j: nat)
    ensures j <= |s|
    decreases |s|
  {
    if |s| == 0 || !IsWhiteSpace(s[|s| - 1]) then |s|
    else TrailingWhiteSpace(s[..|s| - 1])
  }

  /** The trailing run is white space and starts after the last character
      that is not. */
  lemma {:induction false} TrailingSpec(s: seq<char>)
    ensures var j := TrailingWhiteSpace(s);
            AllWhiteSpace(s[j..]) && (j == 0 || !IsWhiteSpace(s[j - 1]))
    decreases |s|
  {
    if |s| > 0 && IsWhiteSpace(s[|s| - 1]) {
      var j := TrailingWhiteSpace(s[..|s| - 1]);
      TrailingSpec(s[..|s| - 1]);
      assert s[j..] == s[..|s| - 1][j..] + [s[|s| - 1]];
    }
  }

  /** `String.Trim()`: drops the white space at both ends. */
  function Trim(s: seq<char>): seq<char>
  {
    var k := LeadingWhiteSpace(s);
    var t := s[k..];
    t[..TrailingWhiteSpace(t)]
  }

  /** `Trim` keeps a slice of its input with only white space on either
      side of it, is empty exactly for all-white input, and otherwise
      neither begins nor ends with white space. */
  lemma TrimSpec(s: seq<char>)
    ensures var k, r := LeadingWhiteSpace(s), Trim(s);
            && k + |r| <= |s| && s[k..k + |r|] == r
            && AllWhiteSpace(s[..k]) && AllWhiteSpace(s[k + |r|..])
    ensures |Trim(s)| == 0 <==> AllWhiteSpace(s)
    ensures |Trim(s)| > 0 ==> !IsWhiteSpace(Trim(s)[0]) && !IsWhiteSpace(Trim(s)[|Trim(s)| - 1])
  {
    var k := LeadingWhiteSpace(s);
    var t := s[k..];
    var j := TrailingWhiteSpace(t);
    LeadingSpec(s);
    TrailingSpec(t);
    assert Trim(s) == t[..j];
    assert |t[..j]| == 0 ==> s == s[..k] + t[j..];
    assert s[k + j..] == t[j..];
  }

  /** `Trim` is determined by its contract: whatever white space surrounds a
      string whose ends are not white space is exactly what it removes. */
  lemma TrimUnique(pre: seq<char>, mid: seq<char>, post: seq<char>)
    requires AllWhiteSpace(pre) && AllWhiteSpace(post)
    requires |mid| > 0 ==> !IsWhiteSpace(mid[0]) && !IsWhiteSpace(mid[|mid| - 1])
    ensures Trim(pre + mid + post) == mid
  {
    var s := pre + mid + post;
    if |mid| == 0 {
      assert s == pre + post;
      assert AllWhiteSpace(s);
      LeadingSpec(s);
    } else {
      var k := LeadingWhiteSpace(s);
      LeadingSpec(s);
      assert s[|pre|] == mid[0];
      assert k == |pre|;
      var t := s[k..];
      assert t == mid + post;
      var j := TrailingWhiteSpace(t);
      TrailingSpec(t);
      assert t[|mid| - 1] == mid[|mid| - 1];
      assert j == |mid|;
      assert t[..j] == mid;
    }
  }

  /** Trimming twice is trimming once. */
  lemma TrimIdempotent(s: seq<char>)
    ensures Trim(Trim(s)) == Trim(s)
  {
    var r := Trim(s);
    TrimSpec(s);
    assert r == [] + r + [];
    TrimUnique([], r, []);
  }
}
