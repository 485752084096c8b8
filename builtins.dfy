/**
 * Models of the JavaScript built-ins the core relies on: truthiness of an
 * optional string, `Array.prototype.findIndex` / `find` / `reverse`,
 * `String.prototype.split` with a one-character separator and
 * `String.prototype.trim`, together with the reference definitions
 * (`LastIndex`, `Join`) their properties are stated against.
 */
module Builtins {
  import opened Wrappers

  /** JavaScript truthiness of a string that may be `undefined`. */
  predicate IsTruthy(s: Option<string>) {
    s.Some? && s.value != ""
  }

  // ---------------------------------------------------------------------
  // Searching and reversing sequences

  /** `s.findIndex(p)`: the first index satisfying `p`, or -1. */
  function FindIndex<T>(s: seq<T>, p: T -> bool): (r: int)
    ensures -1 <= r < |s|
    ensures 0 <= r ==> p(s[r]) && forall j :: 0 <= j < r ==> !p(s[j])
    ensures r == -1 <==> forall j :: 0 <= j < |s| ==> !p(s[j])
    decreases |s|
  {
    if s == [] then -1
    else if p(s[0]) then 0
    else
      var k := FindIndex(s[1..], p);
      if k < 0 then -1 else k + 1
  }

  /** `s.find(p)`: the first element satisfying `p`, if any. */
  function Find<T>(s: seq<T>, p: T -> bool): (r: Option<T>)
    ensures r.None? <==> forall j :: 0 <= j < |s| ==> !p(s[j])
    ensures r.Some? ==> exists i :: 0 <= i < |s| && s[i] == r.value && p(s[i]) && forall j :: 0 <= j < i ==> !p(s[j])
  {
    var i := FindIndex(s, p);
    if i < 0 then None else Some(s[i])
  }

  /** Reference definition: the last index satisfying `p`, or -1. */
  function LastIndex<T>(s: seq<T>, p: T -> bool): (r: int)
    ensures -1 <= r < |s|
    ensures 0 <= r ==> p(s[r]) && forall j :: r < j < |s| ==> !p(s[j])
    ensures r == -1 <==> forall j :: 0 <= j < |s| ==> !p(s[j])
    decreases |s|
  {
    if s == [] then -1
    else if p(s[|s| - 1]) then |s| - 1
    else LastIndex(s[..|s| - 1], p)
  }

  /** Appending an element moves the last match to it exactly when it matches. */
  lemma LastIndexSnoc<T>(s: seq<T>, x: T, p: T -> bool)
    ensures LastIndex(s + [x], p) == if p(x) then |s| else LastIndex(s, p)
  {
    assert (s + [x])[..|s|] == s;
  }

  /** `s.reverse()` applied to a fresh copy. */
  function Reverse<T>(s: seq<T>): (r: seq<T>)
    ensures |r| == |s|
    ensures forall i :: 0 <= i < |s| ==> r[i] == s[|s| - 1 - i]
  {
    if s == [] then [] else Reverse(s[1..]) + [s[0]]
  }

  /** Searching a reversed sequence from the front finds the LAST match of the original. */
  lemma FindIndexReverse<T>(s: seq<T>, p: T -> bool)
    ensures FindIndex(Reverse(s), p) == (if LastIndex(s, p) < 0 then -1 else |s| - 1 - LastIndex(s, p))
  {
    var rs := Reverse(s);
    var l := LastIndex(s, p);
    var r := FindIndex(rs, p);
    if l < 0 {
      forall j | 0 <= j < |rs| ensures !p(rs[j]) {
        assert rs[j] == s[|s| - 1 - j];
      }
    } else {
      var m := |s| - 1 - l;
      assert rs[m] == s[l];
      forall j | 0 <= j < m ensures !p(rs[j]) {
        assert rs[j] == s[|s| - 1 - j];
      }
    }
  }

  // ---------------------------------------------------------------------
  // Splitting and joining strings

  /** `parts.join(sep)`. */
  function Join(parts: seq<string>, sep: string): string {
    if parts == [] then ""
    else if |parts| == 1 then parts[0]
    else parts[0] + sep + Join(parts[1..], sep)
  }

  /** `s.split(sep)` for a one-character separator: cut at every occurrence. */
  function Split(s: string, sep: char): (parts: seq<string>)
    ensures |parts| >= 1
    decreases |s|
  {
    var k := FindIndex(s, (c: char) => c == sep);
    if k < 0 then [s] else [s[..k]] + Split(s[k + 1..], sep)
  }

  /** Without a separator the whole string is the only segment. */
  lemma SplitNoSeparator(s: string, sep: char)
    requires sep !in s
    ensures Split(s, sep) == [s]
  {
    assert forall j :: 0 <= j < |s| ==> s[j] != sep;
  }

  /**
   * With a separator, the first segment is everything before its first
   * occurrence and the remaining segments are those of what follows it.
   */
  lemma SplitAtFirst(s: string, sep: char, k: nat)
    requires k < |s| && s[k] == sep && sep !in s[..k]
    ensures Split(s, sep) == [s[..k]] + Split(s[k + 1..], sep)
  {
    assert forall j :: 0 <= j < k ==> s[j] != sep by {
      forall j | 0 <= j < k ensures s[j] != sep {
        assert s[..k][j] == s[j];
      }
    }
  }

  /** Joining the segments of a split restores the string, and no segment holds the separator. */
  lemma {:induction false} SplitJoin(s: string, sep: char)
    ensures Join(Split(s, sep), [sep]) == s
    ensures forall i :: 0 <= i < |Split(s, sep)| ==> sep !in Split(s, sep)[i]
    decreases |s|
  {
    var k := FindIndex(s, (c: char) => c == sep);
    if k < 0 {
      assert forall j :: 0 <= j < |s| ==> s[j] != sep;
    } else {
      var rest := Split(s[k + 1..], sep);
      SplitJoin(s[k + 1..], sep);
      var parts := [s[..k]] + rest;
      assert Split(s, sep) == parts;
      assert parts[1..] == rest;
      assert Join(parts, [sep]) == s[..k] + [sep] + s[k + 1..];
      assert s == s[..k] + [sep] + s[k + 1..];
      forall i | 0 <= i < |parts| ensures sep !in parts[i] {
        if i == 0 {
          forall j | 0 <= j < k ensures s[..k][j] != sep {
            assert s[..k][j] == s[j];
          }
        } else {
          assert parts[i] == rest[i - 1];
        }
      }
    }
  }

  /** Splitting a join of separator-free segments gives the segments back. */
  lemma {:induction false} JoinSplit(parts: seq<string>, sep: char)
    requires |parts| >= 1
    requires forall i :: 0 <= i < |parts| ==> sep !in parts[i]
    ensures Split(Join(parts, [sep]), sep) == parts
    decreases |parts|
  {
    if |parts| == 1 {
      SplitNoSeparator(parts[0], sep);
    } else {
      var tail := Join(parts[1..], [sep]);
      var s := Join(parts, [sep]);
      var k := |parts[0]|;
      assert s == parts[0] + [sep] + tail;
      assert s[..k] == parts[0];
      assert s[k + 1..] == tail;
      SplitAtFirst(s, sep, k);
      JoinSplit(parts[1..], sep);
      assert [parts[0]] + parts[1..] == parts;
    }
  }

  // ---------------------------------------------------------------------
  // Trimming strings

  /** The ECMAScript LineTerminator code points. */
  predicate IsLineTerminator(c: char) {
    c == '\n' || c == '\r' || c == '\U{2028}' || c == '\U{2029}'
  }

  /** The ECMAScript WhiteSpace code points: TAB, VT, FF, ZWNBSP and the Space_Separator category. */
  predicate IsWhiteSpace(c: char) {
    || c == '\t' || c == '\U{000B}' || c == '\U{000C}' || c == '\U{FEFF}'
    || c == ' ' || c == '\U{00A0}' || c == '\U{1680}'
    || ('\U{2000}' <= c <= '\U{200A}')
    || c == '\U{202F}' || c == '\U{205F}' || c == '\U{3000}'
  }

  /** What `trim` removes. */
  predicate IsTrimmable(c: char) {
    IsWhiteSpace(c) || IsLineTerminator(c)
  }

  /** Drops leading trimmable characters: the result is a suffix of `s`. */
  function TrimStart(s: string): (r: string)
    ensures |r| <= |s| && r == s[|s| - |r|..]
    ensures forall j :: 0 <= j < |s| - |r| ==> IsTrimmable(s[j])
    ensures r != [] ==> !IsTrimmable(r[0])
    decreases |s|
  {
    if s != [] && IsTrimmable(s[0]) then TrimStart(s[1..]) else s
  }

  /** Drops trailing trimmable characters: the result is a prefix of `s`. */
  function TrimEnd(s: string): (r: string)
    ensures |r| <= |s| && r == s[..|r|]
    ensures forall j :: |r| <= j < |s| ==> IsTrimmable(s[j])
    ensures r != [] ==> !IsTrimmable(r[|r| - 1])
    decreases |s|
  {
    if s != [] && IsTrimmable(s[|s| - 1]) then TrimEnd(s[..|s| - 1]) else s
  }

  /** `s.trim()`. */
  function Trim(s: string): string {
    TrimEnd(TrimStart(s))
  }

  /**
   * `trim` keeps a contiguous slice of `s`, removes only trimmable characters
   * around it, and leaves no trimmable character at either end; it is empty
   * exactly when `s` is all whitespace.
   */
  lemma TrimSlice(s: string)
    ensures exists i, j ::
              && 0 <= i <= j <= |s| && Trim(s) == s[i..j]
              && (forall k :: 0 <= k < i ==> IsTrimmable(s[k]))
              && (forall k :: j <= k < |s| ==> IsTrimmable(s[k]))
    ensures Trim(s) != [] ==> !IsTrimmable(Trim(s)[0]) && !IsTrimmable(Trim(s)[|Trim(s)| - 1])
    ensures Trim(s) == [] <==> forall k :: 0 <= k < |s| ==> IsTrimmable(s[k])
  {
    var t := TrimStart(s);
    var i := |s| - |t|;
    var r := TrimEnd(t);
    var j := i + |r|;
    assert r == s[i..j];
    forall k | j <= k < |s| ensures IsTrimmable(s[k]) {
      assert s[k] == t[k - i];
    }
    if r != [] {
      assert r[0] == t[0];
    }
    if r == [] {
      forall k | 0 <= k < |s| ensures IsTrimmable(s[k]) {
      }
    } else {
      assert !IsTrimmable(s[i]);
    }
  }

  /** Trimming a string with no whitespace at either end, followed by a trailing space, gives that string. */
  lemma TrimTrailingSpace(core: string)
    requires core != [] && !IsTrimmable(core[0]) && !IsTrimmable(core[|core| - 1])
    ensures Trim(core + " ") == core
  {
    var s := core + " ";
    assert s[0] == core[0];
    assert TrimStart(s) == s;
    assert s[..|s| - 1] == core;
    assert TrimEnd(s) == TrimEnd(core);
  }
}
