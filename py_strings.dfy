/** Python's `str` operations used by the log helpers, on `seq<char>`. */
module PyStrings {
  import opened Wrappers

  /** `sub` occurs in `s` starting at index `i`. */
  predicate OccursAt(s: string, sub: string, i: nat) {
    i + |sub| <= |s| && s[i..i + |sub|] == sub
  }

  /** `sub in s`. */
  predicate Contains(s: string, sub: string) {
    exists i: nat | i <= |s| :: OccursAt(s, sub, i)
  }

  /** `s.startswith(prefix)`. */
  predicate StartsWith(s: string, prefix: string) {
    prefix <= s
  }

  /** `s.find(sub, i)`: the first occurrence of `sub` at or after `i`. */
  function FindFrom(s: string, sub: string, i: nat): (r: Option<nat>)
    decreases |s| - i
    ensures r.Some? ==> i <= r.value && OccursAt(s, sub, r.value)
    ensures r.Some? ==> forall j: nat :: i <= j < r.value ==> !OccursAt(s, sub, j)
    ensures r.None? ==> forall j: nat :: i <= j ==> !OccursAt(s, sub, j)
  {
    if i + |sub| > |s| then None
    else if OccursAt(s, sub, i) then Some(i)
    else FindFrom(s, sub, i + 1)
  }

  /** `sub in s` exactly when `s.find(sub)` finds it. */
  lemma FindIffContains(s: string, sub: string)
    ensures FindFrom(s, sub, 0).Some? <==> Contains(s, sub)
  {
    var r := FindFrom(s, sub, 0);
    if r.Some? {
      assert OccursAt(s, sub, r.value);
    }
  }

  /** An occurrence inside a prefix or a suffix of `s` is an occurrence in `s`. */
  lemma OccursInSlices(s: string, sub: string, i: nat, j: nat)
    requires i <= |s|
    ensures OccursAt(s[..i], sub, j) ==> OccursAt(s, sub, j)
    ensures OccursAt(s[i..], sub, j) ==> OccursAt(s, sub, i + j)
  {
    if OccursAt(s[..i], sub, j) {
      assert s[..i][j..j + |sub|] == s[j..j + |sub|];
    }
    if OccursAt(s[i..], sub, j) {
      assert s[i..][j..j + |sub|] == s[i + j..i + j + |sub|];
    }
  }

  /** `s.split(sep)` for a non-empty separator: the pieces between the
      non-overlapping occurrences of `sep`, found left to right. */
  function Split(s: string, sep: string): (parts: seq<string>)
    requires |sep| > 0
    decreases |s|
    ensures 1 <= |parts| <= |s| + 1
  {
    match FindFrom(s, sep, 0)
    case None => [s]
    case Some(i) => [s[..i]] + Split(s[i + |sep|..], sep)
  }

  /** No piece of a split contains the separator, and the split has a single
      piece exactly when the separator does not occur. */
  lemma {:induction false} SplitPieces(s: string, sep: string)
    requires |sep| > 0
    ensures forall p :: p in Split(s, sep) ==> !Contains(p, sep)
    ensures |Split(s, sep)| == 1 <==> !Contains(s, sep)
    decreases |s|
  {
    FindIffContains(s, sep);
    match FindFrom(s, sep, 0)
    case None =>
    case Some(i) =>
      SplitFound(s, sep, i);
      SplitPieces(s[i + |sep|..], sep);
      forall j: nat | j <= i ensures !OccursAt(s[..i], sep, j) {
        OccursInSlices(s, sep, i, j);
      }
  }

  /** The split at the first occurrence of the separator. */
  lemma SplitFound(s: string, sep: string, i: nat)
    requires |sep| > 0 && FindFrom(s, sep, 0) == Some(i)
    ensures Split(s, sep) == [s[..i]] + Split(s[i + |sep|..], sep)
  {
  }

  /** `sep.join(parts)`: starts with the first piece, followed by the
      separator when there is more than one piece, and ends with the last piece. */
  function Join(sep: string, parts: seq<string>): (r: string)
    decreases |parts|
    ensures |parts| == 0 ==> r == ""
    ensures |parts| >= 1 ==> parts[0] <= r
    ensures |parts| >= 2 ==> parts[0] + sep <= r
  {
    if |parts| == 0 then ""
    else if |parts| == 1 then parts[0]
    else parts[0] + sep + Join(sep, parts[1..])
  }

  /** The last piece is joined on after the last separator. */
  lemma {:induction false} JoinLast(sep: string, parts: seq<string>)
    requires |parts| >= 2
    ensures Join(sep, parts) == Join(sep, parts[..|parts| - 1]) + sep + parts[|parts| - 1]
    decreases |parts|
  {
    if |parts| > 2 {
      JoinLast(sep, parts[1..]);
      assert parts[1..][..|parts| - 2] == parts[..|parts| - 1][1..];
    }
  }

  /** Joining the pieces of a split with the separator gives back the string. */
  lemma {:induction false} JoinSplit(s: string, sep: string)
    requires |sep| > 0
    ensures Join(sep, Split(s, sep)) == s
    decreases |s|
  {
    match FindFrom(s, sep, 0)
    case None =>
    case Some(i) =>
      var rest := s[i + |sep|..];
      var parts := Split(s, sep);
      SplitFound(s, sep, i);
      assert parts[1..] == Split(rest, sep);
      JoinSplit(rest, sep);
      assert Join(sep, parts) == s[..i] + sep + rest;
      assert s[i..i + |sep|] == sep;
      assert s == s[..i] + s[i..i + |sep|] + rest;
  }

  /** `s.replace(pat, repl)` for a non-empty `pat`: every non-overlapping
      occurrence, found left to right, is replaced (CPython's `str.replace`
      returns the same as `repl.join(s.split(pat))`). A string without `pat`
      comes back unchanged; a replacement no longer than the pattern shortens
      the string by at least the difference once the pattern occurs. */
  function Replace(s: string, pat: string, repl: string): (r: string)
    requires |pat| > 0
    ensures !Contains(s, pat) ==> r == s
    ensures |repl| <= |pat| ==> |r| + (if Contains(s, pat) then |pat| - |repl| else 0) <= |s|
  {
    SplitPieces(s, pat);
    JoinSplit(s, pat);
    if |repl| <= |pat| then
      JoinSeparatorLength(repl, pat, Split(s, pat));
      Join(repl, Split(s, pat))
    else
      Join(repl, Split(s, pat))
  }

  /** A one-character substring is a character of the string. */
  lemma ContainsChar(s: string, c: char)
    ensures Contains(s, [c]) <==> c in s
  {
    if c in s {
      var i :| 0 <= i < |s| && s[i] == c;
      assert OccursAt(s, [c], i);
    }
    if Contains(s, [c]) {
      var i: nat :| i <= |s| && OccursAt(s, [c], i);
      assert s[i] == c;
    }
  }

  /** A string whose separator occurs splits into everything up to the last
      piece, the separator, and a last piece free of the separator. */
  lemma SplitLast(s: string, sep: string)
    requires |sep| > 0 && Contains(s, sep)
    ensures var parts := Split(s, sep);
            |parts| >= 2 &&
            s == Join(sep, parts[..|parts| - 1]) + sep + parts[|parts| - 1] &&
            !Contains(parts[|parts| - 1], sep)
  {
    var parts := Split(s, sep);
    SplitPieces(s, sep);
    assert |parts| >= 2;
    var front, last := parts[..|parts| - 1], parts[|parts| - 1];
    JoinSplit(s, sep);
    assert s == Join(sep, parts);
    JoinLast(sep, parts);
    assert Join(sep, parts) == Join(sep, front) + sep + last;
    assert last in parts;
    assert !Contains(last, sep);
  }

  /** The last piece of a split is the whole string when the separator does
      not occur; otherwise it is a suffix directly preceded by the separator
      and free of it. */
  lemma SplitLastPiece(s: string, sep: string)
    requires |sep| > 0
    ensures var last := Split(s, sep)[|Split(s, sep)| - 1];
            (!Contains(s, sep) ==> last == s) &&
            (Contains(s, sep) ==>
               |last| + |sep| <= |s| && s[|s| - |last|..] == last &&
               s[|s| - |last| - |sep|..|s| - |last|] == sep && !Contains(last, sep))
  {
    var parts := Split(s, sep);
    if Contains(s, sep) {
      SplitLast(s, sep);
      var front := Join(sep, parts[..|parts| - 1]);
      assert s == front + sep + parts[|parts| - 1];
    } else {
      SplitPieces(s, sep);
      JoinSplit(s, sep);
    }
  }

  /** A shorter separator gives a join that is shorter by at least the
      difference once there are two pieces. */
  lemma {:induction false} JoinSeparatorLength(short: string, long: string, parts: seq<string>)
    requires |short| <= |long|
    ensures |Join(short, parts)| + (if |parts| >= 2 then |long| - |short| else 0) <= |Join(long, parts)|
    decreases |parts|
  {
    if |parts| > 1 {
      JoinSeparatorLength(short, long, parts[1..]);
    }
  }

  /** `s` with every occurrence of the character `c` removed. */
  function DropChar(s: string, c: char): (r: string)
    ensures c !in r
    ensures forall x :: x != c ==> (x in r <==> x in s)
  {
    if |s| == 0 then ""
    else if s[0] == c then DropChar(s[1..], c)
    else [s[0]] + DropChar(s[1..], c)
  }

  /** `s.replace(c, "")` for a single character deletes every `c`. */
  lemma {:induction false} ReplaceCharIsDrop(s: string, c: char)
    ensures Replace(s, [c], "") == DropChar(s, c)
    decreases |s|
  {
    if |s| > 0 {
      ReplaceCharIsDrop(s[1..], c);
      var f := FindFrom(s, [c], 0);
      if s[0] == c {
        assert OccursAt(s, [c], 0);
        assert s[1..] == s[0 + |[c]|..];
      } else {
        assert !OccursAt(s, [c], 0);
        assert FindFrom(s, [c], 0) == ShiftFind(FindFrom(s[1..], [c], 0)) by {
          FindShift(s, [c], 0);
        }
        match FindFrom(s[1..], [c], 0)
        case None =>
        case Some(i) =>
          assert s[..i + 1] == [s[0]] + s[1..][..i];
          assert s[i + 1 + 1..] == s[1..][i + 1..];
      }
    }
  }

  /** A search result in `s[1..]` as an index into `s`. */
  function ShiftFind(r: Option<nat>): Option<nat> {
    match r
    case None => None
    case Some(i) => Some(i + 1)
  }

  /** Searching from `i + 1` in `s` is searching from `i` in `s[1..]`. */
  lemma {:induction false} FindShift(s: string, sub: string, i: nat)
    requires |s| > 0 && !OccursAt(s, sub, 0)
    ensures FindFrom(s, sub, i + 1) == ShiftFind(FindFrom(s[1..], sub, i))
    ensures i == 0 ==> FindFrom(s, sub, 0) == FindFrom(s, sub, 1)
    decreases |s| - i
  {
    if i + 1 + |sub| <= |s| {
      assert s[i + 1..i + 1 + |sub|] == s[1..][i..i + |sub|];
      if !OccursAt(s, sub, i + 1) {
        FindShift(s, sub, i + 1);
      }
    }
  }

  /** Python's `str.isspace()` for one character. */
  predicate IsSpace(c: char) {
    c == ' ' || '\t' <= c <= '\r' || '\U{1C}' <= c <= '\U{1F}' || c == '\U{85}' || c == '\U{A0}' ||
    c == '\U{1680}' || '\U{2000}' <= c <= '\U{200A}' || c == '\U{2028}' || c == '\U{2029}' ||
    c == '\U{202F}' || c == '\U{205F}' || c == '\U{3000}'
  }

  /** `s.lstrip()`: drops the leading whitespace and nothing else. */
  function StripStart(s: string): (r: string)
    ensures |r| <= |s| && r == s[|s| - |r|..]
    ensures forall i :: 0 <= i < |s| - |r| ==> IsSpace(s[i])
    ensures |r| > 0 ==> !IsSpace(r[0])
  {
    if |s| > 0 && IsSpace(s[0]) then StripStart(s[1..]) else s
  }

  /** `s.rstrip()`: drops the trailing whitespace and nothing else. */
  function StripEnd(s: string): (r: string)
    ensures |r| <= |s| && r == s[..|r|]
    ensures forall i :: |r| <= i < |s| ==> IsSpace(s[i])
    ensures |r| > 0 ==> !IsSpace(r[|r| - 1])
  {
    if |s| > 0 && IsSpace(s[|s| - 1]) then StripEnd(s[..|s| - 1]) else s
  }

  /** `s.strip()`: a substring of `s` that neither starts nor ends with
      whitespace, and is empty exactly when `s` is all whitespace. */
  function Strip(s: string): (r: string)
    ensures |r| <= |s| && Contains(s, r)
    ensures |r| > 0 ==> !IsSpace(r[0]) && !IsSpace(r[|r| - 1])
    ensures r == "" <==> forall i :: 0 <= i < |s| ==> IsSpace(s[i])
  {
    var front := StripStart(s);
    var r := StripEnd(front);
    assert OccursAt(s, r, |s| - |front|);
    assert front == s[|s| - |front|..];
    r
  }

  /** `c.lower()` for ASCII letters. */
  function LowerChar(c: char): char {
    if 'A' <= c <= 'Z' then (c as int + 32) as char else c
  }

  /** `s.lower()`, restricted to ASCII case mapping: no upper-case ASCII letter
      is left, each upper-case ASCII letter becomes its lower-case partner, and
      every other character is kept. */
  function Lower(s: string): (r: string)
    ensures |r| == |s|
    ensures forall i :: 0 <= i < |r| ==> !('A' <= r[i] <= 'Z')
    ensures forall i :: 0 <= i < |s| ==>
              if 'A' <= s[i] <= 'Z' then r[i] as int == s[i] as int + 32 else r[i] == s[i]
  {
    seq(|s|, i requires 0 <= i < |s| => LowerChar(s[i]))
  }

  /** Lower-casing twice is lower-casing once. */
  lemma LowerIdempotent(s: string)
    ensures Lower(Lower(s)) == Lower(s)
  {
  }
}
