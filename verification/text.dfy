/**
 The string primitives the browser script relies on, over `string` (a sequence
 of Unicode scalar values): counting, `split` on one character, `join`, global
 and first-occurrence replacement, and `trim` with JavaScript's whitespace set.
 */
module Text {

  /** `s.startsWith(p)`. */
  predicate StartsWith(s: string, p: string) {
    |p| <= |s| && s[..|p|] == p
  }

  /** Number of occurrences of `c` in `s`. */
  function Count(c: char, s: string): (n: nat)
    ensures n <= |s|
    ensures n == 0 <==> c !in s
  {
    if s == [] then 0 else (if s[0] == c then 1 else 0) + Count(c, s[1..])
  }

  // ---------------------------------------------------------------------------
  // split / join
  // ---------------------------------------------------------------------------

  /** `s.split(c)` for a one-character separator: the maximal `c`-free pieces
      between the separators, in order (an empty string gives one empty piece). */
  function Split(s: string, c: char): (parts: seq<string>)
    ensures |parts| == Count(c, s) + 1
    decreases |s|
  {
    if s == [] then [[]]
    else
      var rest := Split(s[1..], c);
      if s[0] == c then [[]] + rest
      else [[s[0]] + rest[0]] + rest[1..]
  }

  /** No piece of a split contains the separator. */
  lemma {:induction false} SplitPiecesFree(s: string, c: char)
    ensures forall i :: 0 <= i < |Split(s, c)| ==> c !in Split(s, c)[i]
    decreases |s|
  {
    if s != [] {
      var rest := Split(s[1..], c);
      SplitPiecesFree(s[1..], c);
      var parts := Split(s, c);
      if s[0] != c {
        forall i | 0 <= i < |parts| ensures c !in parts[i] {
          if i == 0 {
            assert parts[0] == [s[0]] + rest[0];
          } else {
            assert parts[i] == rest[i];
          }
        }
      } else {
        forall i | 0 <= i < |parts| ensures c !in parts[i] {
          if i > 0 {
            assert parts[i] == rest[i - 1];
          }
        }
      }
    }
  }

  /** `parts.join(sep)`. */
  function Join(parts: seq<string>, sep: string): (s: string)
    ensures |parts| == 0 ==> s == []
    ensures |parts| >= 1 ==> |s| >= |parts[0]|
  {
    if |parts| == 0 then []
    else if |parts| == 1 then parts[0]
    else parts[0] + sep + Join(parts[1..], sep)
  }

  /** Joining two or more parts puts the first in front of the separator and
      the join of the rest. */
  lemma JoinCons(parts: seq<string>, sep: string)
    requires |parts| >= 2
    ensures Join(parts, sep) == parts[0] + sep + Join(parts[1..], sep)
  {
  }

  /** A separator-free string is its own single piece. */
  lemma {:induction false} SplitNoSeparator(a: string, c: char)
    requires c !in a
    ensures Split(a, c) == [a]
  {
    if a != [] {
      SplitNoSeparator(a[1..], c);
      assert a == [a[0]] + a[1..];
    }
  }

  /** Splitting distributes over a separator occurrence. */
  lemma {:induction false} SplitAtSeparator(a: string, b: string, c: char)
    ensures Split(a + [c] + b, c) == Split(a, c) + Split(b, c)
  {
    if a == [] {
      assert a + [c] + b == [c] + b;
      SplitCons(c, b, c);
    } else {
      var x, t := a[0], a[1..];
      SplitAtSeparator(t, b, c);
      assert a == [x] + t;
      Associative([x], t, [c], b);
      SplitAtSeparatorCons(x, t, b, c);
    }
  }

  /** How `Split` reads one leading character. */
  lemma SplitCons(x: char, t: string, c: char)
    ensures var rest := Split(t, c);
      Split([x] + t, c) == if x == c then [[]] + rest else [[x] + rest[0]] + rest[1..]
  {
    assert ([x] + t)[1..] == t;
  }

  /** The inductive step of `SplitAtSeparator`. */
  lemma SplitAtSeparatorCons(x: char, t: string, b: string, c: char)
    requires Split(t + [c] + b, c) == Split(t, c) + Split(b, c)
    ensures Split([x] + (t + [c] + b), c) == Split([x] + t, c) + Split(b, c)
  {
    var p, q := Split(t, c), Split(b, c);
    SplitCons(x, t + [c] + b, c);
    SplitCons(x, t, c);
    if x == c {
      Associative3([[]], p, q);
    } else {
      var h := [x] + p[0];
      ConcatTail(p, q);
      Associative3([h], p[1..], q);
    }
  }

  /** Joining the pieces of a split with the separator restores the string. */
  lemma {:induction false} JoinSplit(s: string, c: char)
    ensures Join(Split(s, c), [c]) == s
  {
    if s != [] {
      var rest := Split(s[1..], c);
      JoinSplit(s[1..], c);
      if s[0] == c {
        assert Split(s, c) == [[]] + rest;
        assert ([[]] + rest)[1..] == rest;
      } else {
        var parts := Split(s, c);
        assert parts == [[s[0]] + rest[0]] + rest[1..];
        if |rest| == 1 {
          assert Join(parts, [c]) == [s[0]] + rest[0];
        } else {
          assert parts[1..] == rest[1..];
          assert Join(rest, [c]) == rest[0] + [c] + Join(rest[1..], [c]);
          assert Join(parts, [c]) == [s[0]] + rest[0] + [c] + Join(rest[1..], [c]);
        }
      }
    }
  }

  /** Splitting the join of separator-free pieces gives the pieces back. */
  lemma {:induction false} SplitJoin(parts: seq<string>, c: char)
    requires |parts| >= 1
    requires forall i :: 0 <= i < |parts| ==> c !in parts[i]
    ensures Split(Join(parts, [c]), c) == parts
  {
    if |parts| == 1 {
      SplitNoSeparator(parts[0], c);
    } else {
      SplitJoin(parts[1..], c);
      SplitNoSeparator(parts[0], c);
      SplitAtSeparator(parts[0], Join(parts[1..], [c]), c);
      assert [parts[0]] + parts[1..] == parts;
    }
  }

  // ---------------------------------------------------------------------------
  // replacement
  // ---------------------------------------------------------------------------

  /** `s.replace(/c/g, '')`: every occurrence of `c` deleted. */
  function RemoveAll(s: string, c: char): (r: string)
    ensures c !in r
    ensures |r| == |s| - Count(c, s)
  {
    if s == [] then []
    else if s[0] == c then RemoveAll(s[1..], c)
    else [s[0]] + RemoveAll(s[1..], c)
  }

  /** Every other character keeps its number of occurrences. */
  lemma {:induction false} RemoveAllKeepsOthers(s: string, c: char, d: char)
    requires d != c
    ensures Count(d, RemoveAll(s, c)) == Count(d, s)
  {
    if s != [] {
      RemoveAllKeepsOthers(s[1..], c, d);
      if s[0] != c {
        var rest := RemoveAll(s[1..], c);
        assert ([s[0]] + rest)[1..] == rest;
      }
    }
  }

  lemma {:induction false} RemoveAllConcat(a: string, b: string, c: char)
    ensures RemoveAll(a + b, c) == RemoveAll(a, c) + RemoveAll(b, c)
  {
    if a != [] {
      assert (a + b)[1..] == a[1..] + b;
      RemoveAllConcat(a[1..], b, c);
      if a[0] == c {
        assert RemoveAll(a + b, c) == RemoveAll(a[1..] + b, c);
      } else {
        assert RemoveAll(a + b, c) == [a[0]] + RemoveAll(a[1..] + b, c);
      }
    } else {
      assert a + b == b;
    }
  }

  /** Removing a character that does not occur changes nothing. */
  lemma {:induction false} RemoveAllAbsent(s: string, c: char)
    requires c !in s
    ensures RemoveAll(s, c) == s
  {
    if s != [] {
      RemoveAllAbsent(s[1..], c);
    }
  }

  /** `s.replace(/c/g, rep)`: every occurrence of `c` replaced by `rep`. */
  function ReplaceAll(s: string, c: char, rep: string): (r: string)
    ensures c !in rep ==> c !in r
    ensures forall d :: d != c && d !in rep ==> (d in r <==> d in s)
  {
    if s == [] then []
    else
      var rest := ReplaceAll(s[1..], c, rep);
      assert s == [s[0]] + s[1..];
      if s[0] == c then rep + rest else [s[0]] + rest
  }

  lemma ReplaceAllSingle(ch: char, c: char, rep: string)
    ensures ReplaceAll([ch], c, rep) == if ch == c then rep else [ch]
  {
    assert [ch][1..] == [];
  }

  lemma {:induction false} ReplaceAllConcat(a: string, b: string, c: char, rep: string)
    ensures ReplaceAll(a + b, c, rep) == ReplaceAll(a, c, rep) + ReplaceAll(b, c, rep)
  {
    if a != [] {
      assert (a + b)[1..] == a[1..] + b;
      ReplaceAllConcat(a[1..], b, c, rep);
      if a[0] == c {
        assert ReplaceAll(a + b, c, rep) == rep + ReplaceAll(a[1..] + b, c, rep);
      } else {
        assert ReplaceAll(a + b, c, rep) == [a[0]] + ReplaceAll(a[1..] + b, c, rep);
      }
    } else {
      assert a + b == b;
    }
  }

  /** Replacing a character that does not occur changes nothing. */
  lemma {:induction false} ReplaceAllAbsent(s: string, c: char, rep: string)
    requires c !in s
    ensures ReplaceAll(s, c, rep) == s
  {
    if s != [] {
      ReplaceAllAbsent(s[1..], c, rep);
    }
  }

  /** `s.replace(c, '')` with a string pattern: only the first occurrence of
      `c` is deleted. */
  function RemoveFirst(s: string, c: char): (r: string)
    ensures c !in s ==> r == s
    ensures c in s ==> |r| == |s| - 1 && Count(c, r) == Count(c, s) - 1
  {
    if s == [] then []
    else if s[0] == c then s[1..]
    else
      var rest := RemoveFirst(s[1..], c);
      assert ([s[0]] + rest)[1..] == rest;
      [s[0]] + rest
  }

  // ---------------------------------------------------------------------------
  // trim
  // ---------------------------------------------------------------------------

  /** JavaScript's WhiteSpace and LineTerminator code points (ECMA-262,
      section 12.2 and 12.3): what `String.prototype.trim` removes and what
      `parseInt` skips. The space separators are Unicode category Zs. */
  predicate IsJsSpace(ch: char) {
    || ch == '\t' || ch == '\n' || ch == '\U{000B}' || ch == '\U{000C}' || ch == '\r'
    || ch == ' ' || ch == '\U{00A0}' || ch == '\U{1680}'
    || ('\U{2000}' <= ch <= '\U{200A}')
    || ch == '\U{2028}' || ch == '\U{2029}' || ch == '\U{202F}' || ch == '\U{205F}'
    || ch == '\U{3000}' || ch == '\U{FEFF}'
  }

  /** Leading whitespace removed. */
  function TrimStart(s: string): string {
    if s != [] && IsJsSpace(s[0]) then TrimStart(s[1..]) else s
  }

  /** `TrimStart` keeps a suffix that does not start with whitespace, and
      everything it dropped was whitespace. */
  lemma {:induction false} TrimStartSpec(s: string)
    ensures var r := TrimStart(s);
      && |r| <= |s| && r == s[|s| - |r|..]
      && (r != [] ==> !IsJsSpace(r[0]))
      && (forall i :: 0 <= i < |s| - |r| ==> IsJsSpace(s[i]))
  {
    if s != [] && IsJsSpace(s[0]) {
      var t := s[1..];
      TrimStartSpec(t);
      var r := TrimStart(t);
      assert TrimStart(s) == r;
      assert t[|t| - |r|..] == s[|s| - |r|..];
      forall i | 0 <= i < |s| - |r| ensures IsJsSpace(s[i]) {
        if i > 0 {
          assert s[i] == t[i - 1];
        }
      }
    }
  }

  /** Trailing whitespace removed. */
  function TrimEnd(s: string): string {
    if s != [] && IsJsSpace(s[|s| - 1]) then TrimEnd(s[..|s| - 1]) else s
  }

  /** `TrimEnd` keeps a prefix that does not end with whitespace, and
      everything it dropped was whitespace. */
  lemma {:induction false} TrimEndSpec(s: string)
    ensures var r := TrimEnd(s);
      && |r| <= |s| && r == s[..|r|]
      && (r != [] ==> !IsJsSpace(r[|r| - 1]))
      && (forall i :: |r| <= i < |s| ==> IsJsSpace(s[i]))
  {
    if s != [] && IsJsSpace(s[|s| - 1]) {
      TrimEndSpec(s[..|s| - 1]);
    }
  }

  /** `s.trim()`. */
  function Trim(s: string): string {
    TrimEnd(TrimStart(s))
  }

  /** `trim` keeps the infix of `s` between its leading and its trailing
      whitespace: the result starts at the first non-whitespace character,
      ends at the last, and is empty exactly when `s` is all whitespace. */
  lemma TrimSpec(s: string)
    ensures var r := Trim(s); var lo := |s| - |TrimStart(s)|;
      && 0 <= lo && lo + |r| <= |s| && r == s[lo..lo + |r|]
      && (forall i :: 0 <= i < lo ==> IsJsSpace(s[i]))
      && (forall i :: lo + |r| <= i < |s| ==> IsJsSpace(s[i]))
      && (r != [] ==> !IsJsSpace(r[0]) && !IsJsSpace(r[|r| - 1]))
      && (r == [] <==> forall i :: 0 <= i < |s| ==> IsJsSpace(s[i]))
  {
    var t := TrimStart(s);
    TrimStartSpec(s);
    TrimEndSpec(t);
    var r := TrimEnd(t);
    var lo := |s| - |t|;
    assert r == s[lo..lo + |r|] by {
      assert t == s[lo..];
    }
    forall i | lo + |r| <= i < |s| ensures IsJsSpace(s[i]) {
      assert s[i] == t[i - lo];
    }
    if r == [] {
      assert t == [];
    } else {
      assert r[0] == t[0] && r[0] == s[lo];
    }
  }

  /** Trimming keeps a subsequence of the characters: nothing is added. */
  lemma TrimKeepsCharacters(s: string, ch: char)
    ensures ch in Trim(s) ==> ch in s
  {
    TrimSpec(s);
  }

  /** Trimming a string that has no whitespace at either end changes nothing. */
  lemma TrimAlreadyTrimmed(s: string)
    requires s != [] ==> !IsJsSpace(s[0]) && !IsJsSpace(s[|s| - 1])
    ensures Trim(s) == s
  {
    assert TrimStart(s) == s;
  }

  /** Concatenation regroups freely; stated once so that callers need not
      rediscover it by extensionality. */
  lemma Associative3<T>(a: seq<T>, b: seq<T>, c: seq<T>)
    ensures a + (b + c) == (a + b) + c
  {
  }

  lemma Associative<T>(a: seq<T>, b: seq<T>, c: seq<T>, d: seq<T>)
    ensures a + b + c + d == a + (b + c + d)
  {
  }

  /** The head and tail of a concatenation whose left part is non-empty. */
  lemma ConcatTail<T>(p: seq<T>, q: seq<T>)
    requires p != []
    ensures (p + q)[0] == p[0] && (p + q)[1..] == p[1..] + q
  {
  }
}
