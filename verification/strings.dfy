/**
  The two string operations the service and the field-version object rely on:
  JavaScript's `String.prototype.split` with a non-empty separator, and the
  part of Ember's `camelize` that applies to keys without separator
  characters.
*/
module Strings {

  /** `sep` occurs in `s` starting at index `i`. */
  predicate OccursAt(s: string, sep: string, i: int)
  {
    0 <= i && i + |sep| <= |s| && s[i..i + |sep|] == sep
  }

  /** `p` is the part of `s` before the first occurrence of `sep`, or all of
      `s` when `sep` does not occur in it. */
  predicate PrefixBeforeFirst(p: string, s: string, sep: string)
  {
    && |p| <= |s|
    && p == s[..|p|]
    && (forall i | 0 <= i < |p| :: !OccursAt(s, sep, i))
    && (|p| == |s| || OccursAt(s, sep, |p|))
  }

  /** `s.split(sep)` for a non-empty separator: the pieces between the
      occurrences of `sep`, found left to right without overlap. */
  function Split(s: string, sep: string): (pieces: seq<string>)
    requires sep != []
    ensures |pieces| >= 1
    decreases |s|
  {
    if OccursAt(s, sep, 0) then [[]] + Split(s[|sep|..], sep)
    else if s == [] then [[]]
    else
      var rest := Split(s[1..], sep);
      [[s[0]] + rest[0]] + rest[1..]
  }

  /** `pieces.join(sep)`. */
  function Join(pieces: seq<string>, sep: string): string
    requires |pieces| >= 1
  {
    if |pieces| == 1 then pieces[0] else pieces[0] + sep + Join(pieces[1..], sep)
  }

  /** Prepending a character to the first piece prepends it to the join. */
  lemma JoinConsFirst(c: char, pieces: seq<string>, sep: string)
    requires |pieces| >= 1
    ensures Join([[c] + pieces[0]] + pieces[1..], sep) == [c] + Join(pieces, sep)
  {
    var consed := [[c] + pieces[0]] + pieces[1..];
    if |pieces| > 1 {
      assert consed[1..] == pieces[1..];
    }
  }

  /** Splitting loses nothing: joining the pieces with the separator gives
      back the original string. */
  lemma {:induction false} JoinSplit(s: string, sep: string)
    requires sep != []
    ensures Join(Split(s, sep), sep) == s
    decreases |s|
  {
    if OccursAt(s, sep, 0) {
      var tail := s[|sep|..];
      JoinSplit(tail, sep);
      assert ([[]] + Split(tail, sep))[1..] == Split(tail, sep);
      assert s == sep + tail;
    } else if s == [] {
    } else {
      JoinSplit(s[1..], sep);
      JoinConsFirst(s[0], Split(s[1..], sep), sep);
      assert s == [s[0]] + s[1..];
    }
  }

  /** An occurrence past the first character is an occurrence in the rest. */
  lemma OccursShift(s: string, sep: string, i: int)
    requires 1 <= i && s != []
    ensures OccursAt(s, sep, i) <==> OccursAt(s[1..], sep, i - 1)
  {
    var tail := s[1..];
    if i + |sep| <= |s| {
      var here, there := s[i..i + |sep|], tail[i - 1..i - 1 + |sep|];
      forall k | 0 <= k < |sep|
        ensures here[k] == there[k]
      {
        assert here[k] == s[i + k] == tail[i - 1 + k];
      }
      assert here == there;
    }
  }

  /** The first piece of a split is exactly the text before the first
      separator. */
  lemma {:induction false} SplitFirstPiece(s: string, sep: string)
    requires sep != []
    ensures PrefixBeforeFirst(Split(s, sep)[0], s, sep)
    decreases |s|
  {
    if OccursAt(s, sep, 0) {
    } else if s == [] {
    } else {
      var rest := Split(s[1..], sep);
      SplitFirstPiece(s[1..], sep);
      var r := rest[0];
      var p := [s[0]] + r;
      assert Split(s, sep)[0] == p;
      assert p == s[..|p|];
      forall i | 1 <= i < |p|
        ensures !OccursAt(s, sep, i)
      {
        OccursShift(s, sep, i);
      }
      if |r| < |s[1..]| {
        OccursShift(s, sep, |p|);
      }
    }
  }

  /** The text before the first separator is unique. */
  lemma PrefixBeforeFirstUnique(p: string, q: string, s: string, sep: string)
    requires PrefixBeforeFirst(p, s, sep) && PrefixBeforeFirst(q, s, sep)
    ensures p == q
  {
  }

  /** The text before the first separator holds no separator itself. */
  lemma PrefixBeforeFirstHasNoSeparator(p: string, s: string, sep: string)
    requires sep != [] && PrefixBeforeFirst(p, s, sep)
    ensures forall i :: !OccursAt(p, sep, i)
  {
    forall i | OccursAt(p, sep, i)
      ensures false
    {
      assert i + |sep| <= |p|;
      assert p[i..i + |sep|] == s[..|p|][i..i + |sep|] == s[i..i + |sep|];
      assert OccursAt(s, sep, i);
    }
  }

  predicate IsUpper(c: char)
  {
    'A' <= c <= 'Z'
  }

  /** Lower-cases an ASCII capital letter; any other character is kept. */
  function Lower(c: char): char
  {
    if IsUpper(c) then (c as int + 32) as char else c
  }

  /** The characters Ember's camelize treats as word separators: `-`, `_`,
      `.` and JavaScript's white space and line terminators. */
  predicate IsSeparator(c: char)
  {
    || c == '-' || c == '_' || c == '.'
    || c == ' ' || c == '\t' || c == '\n' || c == '\r'
    || c as int == 0x0B || c as int == 0x0C || c as int == 0xA0
    || c as int == 0x1680 || (0x2000 <= c as int <= 0x200A)
    || c as int == 0x2028 || c as int == 0x2029 || c as int == 0x202F
    || c as int == 0x205F || c as int == 0x3000 || c as int == 0xFEFF
  }

  /** A SharePoint-style PascalCase key: it starts with a capital letter and
      contains neither a separator nor a slash. */
  predicate PascalKey(key: string)
  {
    && |key| > 0
    && IsUpper(key[0])
    && (forall i | 0 <= i < |key| :: !IsSeparator(key[i]) && key[i] != '/')
  }

  /** What camelize's second pass makes of character `c`, where
      `atBoundary` says whether `c` starts the string or follows a slash. */
  function CamelChar(c: char, atBoundary: bool): char
  {
    if atBoundary then Lower(c) else c
  }

  /** Camelize's second pass, scanning `s` where `boundary` says whether the
      previous character was the start of the string or a slash. */
  function CamelizeFrom(s: string, boundary: bool): (r: string)
    ensures |r| == |s|
    ensures |s| > 0 ==> r[0] == CamelChar(s[0], boundary)
    ensures forall i | 0 < i < |s| :: r[i] == CamelChar(s[i], s[i - 1] == '/')
    decreases |s|
  {
    if s == [] then []
    else [CamelChar(s[0], boundary)] + CamelizeFrom(s[1..], s[0] == '/')
  }

  /** Ember's `camelize` on a key without separator characters: a capital
      letter at the start of the key or right after a slash is lower-cased,
      everything else is kept. */
  function Camelize(key: string): (r: string)
    ensures |r| == |key|
    ensures |key| > 0 ==> r[0] == Lower(key[0])
    ensures forall i | 0 < i < |key| :: r[i] == if key[i - 1] == '/' then Lower(key[i]) else key[i]
  {
    CamelizeFrom(key, true)
  }

  /** On a PascalCase key camelize only lower-cases the first letter. */
  lemma CamelizePascal(key: string)
    requires PascalKey(key)
    ensures Camelize(key) == [Lower(key[0])] + key[1..]
  {
    var r := Camelize(key);
    assert |r| == |[Lower(key[0])] + key[1..]|;
    forall i | 0 <= i < |key|
      ensures r[i] == ([Lower(key[0])] + key[1..])[i]
    {
      if i > 0 {
        assert key[i - 1] != '/';
      }
    }
  }
}
