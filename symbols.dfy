/** Symbol-wise text algorithms, over any sequence of comparable symbols: the
    search, split, de-duplication and ordering rules the string applies to its
    symbols, written as reference functions with the properties they promise. */
module SymbolSeq {
  import opened Base

  //---------------------------------------------------------------------------
  // Matching
  //---------------------------------------------------------------------------

  /** `t` occurs in `s` starting at index `i`. */
  predicate MatchAt<T(==)>(s: seq<T>, t: seq<T>, i: nat)
  {
    i + |t| <= |s| && s[i..i + |t|] == t
  }

  predicate IsPrefix<T(==)>(t: seq<T>, s: seq<T>)
  {
    MatchAt(s, t, 0)
  }

  predicate IsSuffix<T(==)>(t: seq<T>, s: seq<T>)
  {
    |t| <= |s| && s[|s| - |t|..] == t
  }

  /** A common prefix grows by one equal element. */
  lemma PrefixExtend<T>(s: seq<T>, t: seq<T>, i: nat)
    requires i < |s| && i < |t| && s[..i] == t[..i] && s[i] == t[i]
    ensures s[..i + 1] == t[..i + 1]
  {
    assert s[..i + 1] == s[..i] + [s[i]] && t[..i + 1] == t[..i] + [t[i]];
  }

  /** A slice grows by the element at its end. */
  lemma SliceSnoc<T>(s: seq<T>, a: nat, b: nat)
    requires a <= b < |s|
    ensures s[a..b] + [s[b]] == s[a..b + 1]
  {
  }

  /** The first `j` elements of `t` sit in `s` from `i` on, and all of `t` fits. */
  predicate MatchUpTo<T(==)>(s: seq<T>, t: seq<T>, i: nat, j: nat)
  {
    j <= |t| && i + |t| <= |s| && forall m :: 0 <= m < j ==> s[i + m] == t[m]
  }

  lemma MatchUpToStep<T>(s: seq<T>, t: seq<T>, i: nat, j: nat)
    requires MatchUpTo(s, t, i, j) && j < |t| && s[i + j] == t[j]
    ensures MatchUpTo(s, t, i, j + 1)
  {
  }

  lemma MatchUpToAll<T>(s: seq<T>, t: seq<T>, i: nat)
    requires MatchUpTo(s, t, i, |t|)
    ensures MatchAt(s, t, i)
  {
    assert s[i..i + |t|] == t by {
      forall m | 0 <= m < |t|
        ensures s[i..i + |t|][m] == t[m]
      {
      }
    }
  }

  /** The elements of `t` from `j` on sit in `s` from `i + j` on, and all of
      `t` fits from `i`. */
  predicate MatchFrom<T(==)>(s: seq<T>, t: seq<T>, i: nat, j: nat)
  {
    j <= |t| && i + |t| <= |s| && forall m :: j <= m < |t| ==> s[i + m] == t[m]
  }

  lemma MatchFromStep<T>(s: seq<T>, t: seq<T>, i: nat, j: nat, k: nat)
    requires MatchFrom(s, t, i, j + 1) && k == i + j && k < |s| && s[k] == t[j]
    ensures MatchFrom(s, t, i, j)
  {
  }

  lemma MatchFromAll<T>(s: seq<T>, t: seq<T>, i: nat)
    requires MatchFrom(s, t, i, 0)
    ensures MatchAt(s, t, i)
  {
    assert s[i..i + |t|] == t by {
      forall m | 0 <= m < |t|
        ensures s[i..i + |t|][m] == t[m]
      {
      }
    }
  }

  /** One differing element rules a match out. */
  lemma MismatchAt<T>(s: seq<T>, t: seq<T>, i: nat, j: nat, k: nat)
    requires k == i + j && j < |t| && k < |s| && s[k] != t[j]
    ensures !MatchAt(s, t, i)
  {
    if i + |t| <= |s| {
      assert s[i..i + |t|][j] != t[j];
    }
  }

  /** A suffix is a match that ends at the end. */
  lemma SuffixIsMatch<T>(s: seq<T>, t: seq<T>)
    requires |t| <= |s|
    ensures IsSuffix(t, s) == MatchAt(s, t, |s| - |t|)
  {
  }

  /** `t` occurs somewhere in `s`. */
  ghost predicate Occurs<T>(s: seq<T>, t: seq<T>)
  {
    exists q :: MatchAt(s, t, q)
  }

  /** Leftmost occurrence of `t` in `s` at or after `i`. */
  function Find<T(==)>(s: seq<T>, t: seq<T>, i: nat := 0): (r: Option<nat>)
    decreases |s| - i
    ensures r.Some? ==> i <= r.value && MatchAt(s, t, r.value)
    ensures r.Some? ==> forall j: nat :: i <= j < r.value ==> !MatchAt(s, t, j)
    ensures r.None? ==> forall j: nat :: i <= j ==> !MatchAt(s, t, j)
  {
    if i + |t| > |s| then None
    else if MatchAt(s, t, i) then Some(i)
    else Find(s, t, i + 1)
  }

  /** Rightmost occurrence of `t` in `s` at or before `i`. */
  function FindLastFrom<T(==)>(s: seq<T>, t: seq<T>, i: nat): (r: Option<nat>)
    decreases i
    ensures r.Some? ==> r.value <= i && MatchAt(s, t, r.value)
    ensures r.Some? ==> forall j: nat :: r.value < j <= i ==> !MatchAt(s, t, j)
    ensures r.None? ==> forall j: nat :: j <= i ==> !MatchAt(s, t, j)
  {
    if MatchAt(s, t, i) then Some(i)
    else if i == 0 then None
    else FindLastFrom(s, t, i - 1)
  }

  /** Rightmost occurrence of `t` in `s`. */
  function FindLast<T(==)>(s: seq<T>, t: seq<T>): (r: Option<nat>)
    ensures r.Some? ==> MatchAt(s, t, r.value) && forall j: nat :: r.value < j ==> !MatchAt(s, t, j)
    ensures r.None? ==> forall j: nat :: !MatchAt(s, t, j)
  {
    if |t| > |s| then None else FindLastFrom(s, t, |s| - |t|)
  }

  /** No match of `t` in `s` starts before `i`. */
  ghost predicate NoMatchBelow<T>(s: seq<T>, t: seq<T>, i: int)
  {
    forall j: nat :: j < i ==> !MatchAt(s, t, j)
  }

  /** No match of `t` in `s` starts after `i`. */
  ghost predicate NoMatchAbove<T>(s: seq<T>, t: seq<T>, i: int)
  {
    forall j: nat :: i < j ==> !MatchAt(s, t, j)
  }

  /** The left-to-right scan passes one more start without a match. */
  lemma NoMatchBelowStep<T>(s: seq<T>, t: seq<T>, i: nat)
    requires NoMatchBelow(s, t, i) && !MatchAt(s, t, i)
    ensures NoMatchBelow(s, t, i + 1)
  {
  }

  /** The right-to-left scan passes one more start without a match. */
  lemma NoMatchAboveStep<T>(s: seq<T>, t: seq<T>, i: nat)
    requires NoMatchAbove(s, t, i) && !MatchAt(s, t, i)
    ensures NoMatchAbove(s, t, i - 1)
  {
  }

  /** No match starts where `t` would run past the end of `s`. */
  lemma NoMatchPastEnd<T>(s: seq<T>, t: seq<T>)
    ensures NoMatchAbove(s, t, |s| - |t|)
  {
  }

  /** A scan that passed every start up to the last possible one finds
      nothing. */
  lemma FindNone<T>(s: seq<T>, t: seq<T>, i: int)
    requires |s| - |t| < i && NoMatchBelow(s, t, i)
    ensures Find(s, t) == None
  {
  }

  /** A scan that passed every start down to 0 finds nothing. */
  lemma FindLastNone<T>(s: seq<T>, t: seq<T>)
    requires NoMatchAbove(s, t, -1)
    ensures FindLast(s, t) == None
  {
  }

  /** A match with none before it is what `Find` returns. */
  lemma FindIs<T>(s: seq<T>, t: seq<T>, p: nat)
    requires MatchAt(s, t, p) && NoMatchBelow(s, t, p)
    ensures Find(s, t) == Some(p)
  {
  }

  /** A match with none after it is what `FindLast` returns. */
  lemma FindLastIs<T>(s: seq<T>, t: seq<T>, p: nat)
    requires MatchAt(s, t, p) && NoMatchAbove(s, t, p)
    ensures FindLast(s, t) == Some(p)
  {
  }

  //---------------------------------------------------------------------------
  // Split and join
  //---------------------------------------------------------------------------

  /** The pieces of `s` between the delimiters, scanning left to right from
      `i` with `cur` the piece collected so far; a match is skipped whole, and
      the last piece is always emitted. */
  function SplitFrom<T(==)>(s: seq<T>, d: seq<T>, i: nat, cur: seq<T>): (ps: seq<seq<T>>)
    requires |d| > 0
    decreases |s| - i
    ensures |ps| >= 1
  {
    if i >= |s| then [cur]
    else if MatchAt(s, d, i) then [cur] + SplitFrom(s, d, i + |d|, [])
    else SplitFrom(s, d, i + 1, cur + [s[i]])
  }

  function Split<T(==)>(s: seq<T>, d: seq<T>): seq<seq<T>>
    requires |d| > 0
  {
    SplitFrom(s, d, 0, [])
  }

  /** The split scan starts with no pieces done and an empty piece. */
  lemma SplitStart<T>(s: seq<T>, d: seq<T>)
    requires |d| > 0
    ensures Split(s, d) == [] + SplitFrom(s, d, 0, [])
  {
    assert [] + SplitFrom(s, d, 0, []) == SplitFrom(s, d, 0, []);
  }

  /** One step of the split scan at a delimiter: the piece so far is done. */
  lemma SplitStepMatch<T>(s: seq<T>, d: seq<T>, i: nat, next: nat, cur: seq<T>, done: seq<seq<T>>)
    requires |d| > 0 && i < |s| && MatchAt(s, d, i) && next == i + |d|
    requires Split(s, d) == done + SplitFrom(s, d, i, cur)
    ensures Split(s, d) == (done + [cur]) + SplitFrom(s, d, next, [])
  {
    var tail := SplitFrom(s, d, next, []);
    assert SplitFrom(s, d, i, cur) == [cur] + tail;
    assert done + ([cur] + tail) == (done + [cur]) + tail;
  }

  /** One step of the split scan elsewhere: the symbol joins the piece. */
  lemma SplitStepOther<T>(s: seq<T>, d: seq<T>, i: nat, cur: seq<T>, done: seq<seq<T>>)
    requires |d| > 0 && i < |s| && !MatchAt(s, d, i)
    requires Split(s, d) == done + SplitFrom(s, d, i, cur)
    ensures Split(s, d) == done + SplitFrom(s, d, i + 1, cur + [s[i]])
  {
  }

  /** At the end of the scan the piece so far is the last one. */
  lemma SplitEnd<T>(s: seq<T>, d: seq<T>, i: nat, cur: seq<T>, done: seq<seq<T>>)
    requires |d| > 0 && i >= |s|
    requires Split(s, d) == done + SplitFrom(s, d, i, cur)
    ensures Split(s, d) == done + [cur]
  {
  }

  /** The pieces glued back with `d` between consecutive ones. */
  function Join<T>(ps: seq<seq<T>>, d: seq<T>): seq<T>
  {
    if ps == [] then []
    else if |ps| == 1 then ps[0]
    else ps[0] + d + Join(ps[1..], d)
  }

  /** Joining one more piece adds the delimiter and the piece at the end. */
  lemma {:induction false} JoinSnoc<T>(ps: seq<seq<T>>, p: seq<T>, d: seq<T>)
    requires ps != []
    ensures Join(ps + [p], d) == Join(ps, d) + d + p
    decreases |ps|
  {
    if |ps| == 1 {
      assert (ps + [p])[1..] == [p];
    } else {
      assert (ps + [p])[1..] == ps[1..] + [p];
      JoinSnoc(ps[1..], p, d);
    }
  }

  /** Number of delimiters the left-to-right scan from `i` consumes. */
  function MatchCount<T(==)>(s: seq<T>, d: seq<T>, i: nat := 0): nat
    requires |d| > 0
    decreases |s| - i
  {
    if i >= |s| then 0
    else if MatchAt(s, d, i) then 1 + MatchCount(s, d, i + |d|)
    else MatchCount(s, d, i + 1)
  }

  lemma JoinCons<T>(p: seq<T>, ps: seq<seq<T>>, d: seq<T>)
    requires ps != []
    ensures Join([p] + ps, d) == p + d + Join(ps, d)
  {
    assert ([p] + ps)[1..] == ps;
  }

  lemma {:induction false} SplitJoinFrom<T>(s: seq<T>, d: seq<T>, i: nat, cur: seq<T>)
    requires |d| > 0 && i <= |s|
    ensures Join(SplitFrom(s, d, i, cur), d) == cur + s[i..]
    decreases |s| - i
  {
    if i == |s| {
      assert s[i..] == [];
    } else if MatchAt(s, d, i) {
      var rest := SplitFrom(s, d, i + |d|, []);
      SplitJoinFrom(s, d, i + |d|, []);
      JoinCons(cur, rest, d);
      SliceAfterMatch(s, d, i, cur);
    } else {
      SplitJoinFrom(s, d, i + 1, cur + [s[i]]);
      SliceAfterOne(s, i, cur);
    }
  }

  /** The text from a match on is the delimiter followed by the rest. */
  lemma SliceAfterMatch<T>(s: seq<T>, d: seq<T>, i: nat, cur: seq<T>)
    requires MatchAt(s, d, i)
    ensures cur + d + s[i + |d|..] == cur + s[i..]
  {
    assert s[i..] == d + s[i + |d|..];
  }

  /** The text from `i` on is its first element followed by the rest. */
  lemma SliceAfterOne<T>(s: seq<T>, i: nat, cur: seq<T>)
    requires i < |s|
    ensures cur + [s[i]] + s[i + 1..] == cur + s[i..]
  {
    assert s[i..] == [s[i]] + s[i + 1..];
  }

  /** Joining the pieces with the delimiter gives the original back. */
  lemma SplitJoin<T>(s: seq<T>, d: seq<T>)
    requires |d| > 0
    ensures Join(Split(s, d), d) == s
  {
    SplitJoinFrom(s, d, 0, []);
  }

  lemma {:induction false} SplitCountFrom<T>(s: seq<T>, d: seq<T>, i: nat, cur: seq<T>)
    requires |d| > 0
    ensures |SplitFrom(s, d, i, cur)| == MatchCount(s, d, i) + 1
    decreases |s| - i
  {
    if i < |s| {
      if MatchAt(s, d, i) {
        SplitCountFrom(s, d, i + |d|, []);
      } else {
        SplitCountFrom(s, d, i + 1, cur + [s[i]]);
      }
    }
  }

  /** One piece more than there are delimiters. */
  lemma SplitCount<T>(s: seq<T>, d: seq<T>)
    requires |d| > 0
    ensures |Split(s, d)| == MatchCount(s, d) + 1
  {
    SplitCountFrom(s, d, 0, []);
  }

  /** A delimiter in the stretch `s[a..i]` is a delimiter of `s` starting
      before `i`. */
  lemma MatchInPiece<T>(s: seq<T>, d: seq<T>, a: nat, i: nat, q: nat)
    requires a <= i <= |s| && |d| > 0
    ensures MatchAt(s[a..i], d, q) ==> a + q < i && MatchAt(s, d, a + q)
  {
    if MatchAt(s[a..i], d, q) {
      forall k | 0 <= k < |d| ensures s[a + q + k] == d[k] {
        assert s[a..i][q..q + |d|][k] == d[k];
      }
      assert s[a + q..a + q + |d|] == d;
    }
  }

  lemma {:induction false} SplitPiecesFreeFrom<T>(s: seq<T>, d: seq<T>, a: nat, i: nat)
    requires |d| > 0 && a <= i <= |s|
    requires forall p: nat :: a <= p < i ==> !MatchAt(s, d, p)
    ensures forall k :: 0 <= k < |SplitFrom(s, d, i, s[a..i])| ==> !Occurs(SplitFrom(s, d, i, s[a..i])[k], d)
    decreases |s| - i
  {
    var ps := SplitFrom(s, d, i, s[a..i]);
    forall q ensures !MatchAt(s[a..i], d, q) {
      MatchInPiece(s, d, a, i, q);
    }
    if i == |s| {
    } else if MatchAt(s, d, i) {
      var j := i + |d|;
      SplitPiecesFreeFrom(s, d, j, j);
      assert s[j..j] == [];
      assert ps == [s[a..i]] + SplitFrom(s, d, j, s[j..j]);
    } else {
      assert s[a..i] + [s[i]] == s[a..i + 1];
      SplitPiecesFreeFrom(s, d, a, i + 1);
    }
  }

  /** No piece contains the delimiter. */
  lemma SplitPiecesFree<T>(s: seq<T>, d: seq<T>)
    requires |d| > 0
    ensures forall k :: 0 <= k < |Split(s, d)| ==> !Occurs(Split(s, d)[k], d)
  {
    assert s[0..0] == [];
    SplitPiecesFreeFrom(s, d, 0, 0);
  }

  /** Every element of every piece of `ps` is an element of `s`. */
  predicate PiecesFrom<T(==)>(ps: seq<seq<T>>, s: seq<T>)
  {
    forall k, j :: 0 <= k < |ps| && 0 <= j < |ps[k]| ==> ps[k][j] in s
  }

  lemma {:induction false} SplitMembersFrom<T>(s: seq<T>, d: seq<T>, i: nat, cur: seq<T>)
    requires |d| > 0
    requires forall j :: 0 <= j < |cur| ==> cur[j] in s
    ensures PiecesFrom(SplitFrom(s, d, i, cur), s)
    decreases |s| - i
  {
    if i < |s| {
      if MatchAt(s, d, i) {
        var rest := SplitFrom(s, d, i + |d|, []);
        SplitMembersFrom(s, d, i + |d|, []);
        var ps := [cur] + rest;
        forall k, j | 0 <= k < |ps| && 0 <= j < |ps[k]| ensures ps[k][j] in s {
          if k == 0 {
            assert ps[k][j] == cur[j];
          } else {
            assert ps[k][j] == rest[k - 1][j];
          }
        }
      } else {
        var next := cur + [s[i]];
        forall j | 0 <= j < |next| ensures next[j] in s {
          if j < |cur| {
            assert next[j] == cur[j];
          }
        }
        SplitMembersFrom(s, d, i + 1, next);
      }
    } else {
      assert SplitFrom(s, d, i, cur) == [cur];
    }
  }

  /** Every symbol of every piece is a symbol of `s`. */
  lemma SplitMembers<T>(s: seq<T>, d: seq<T>)
    requires |d| > 0
    ensures forall k, j :: 0 <= k < |Split(s, d)| && 0 <= j < |Split(s, d)[k]| ==> Split(s, d)[k][j] in s
  {
    SplitMembersFrom(s, d, 0, []);
  }

  /** The first piece is empty exactly when `s` starts with the delimiter
      (or `s` is empty). */
  lemma SplitFirstEmpty<T>(s: seq<T>, d: seq<T>)
    requires |d| > 0
    ensures Split(s, d)[0] == [] <==> s == [] || IsPrefix(d, s)
  {
    if s == [] {
    } else if IsPrefix(d, s) {
      assert Split(s, d) == [[]] + SplitFrom(s, d, |d|, []);
    } else {
      assert [] + [s[0]] == [s[0]];
      assert Split(s, d) == SplitFrom(s, d, 1, [s[0]]);
      SplitFirstPrefix(s, d, 1, [s[0]], [s[0]]);
      assert [s[0]] <= Split(s, d)[0];
    }
  }

  /** The first piece always extends the piece collected so far. */
  lemma {:induction false} SplitFirstPrefix<T>(s: seq<T>, d: seq<T>, i: nat, cur: seq<T>, p: seq<T>)
    requires |d| > 0 && p <= cur
    ensures p <= SplitFrom(s, d, i, cur)[0]
    decreases |s| - i
  {
    if i < |s| && !MatchAt(s, d, i) {
      SplitFirstPrefix(s, d, i + 1, cur + [s[i]], p);
    }
  }

  //---------------------------------------------------------------------------
  // De-duplication
  //---------------------------------------------------------------------------

  /** `s` with every leading copy of `t` dropped. */
  function DropCopies<T(==)>(s: seq<T>, t: seq<T>): (r: seq<T>)
    requires |t| > 0
    ensures |r| <= |s| && !IsPrefix(t, r)
  {
    if IsPrefix(t, s) then DropCopies(s[|t|..], t) else s
  }

  /** Every run of consecutive copies of `t` collapsed into one copy, scanning
      left to right; all other symbols kept in order. */
  function RemoveDuplicates<T(==)>(s: seq<T>, t: seq<T>): seq<T>
    requires |t| > 0
    decreases |s|
  {
    if s == [] then []
    else if IsPrefix(t, s) then t + RemoveDuplicates(DropCopies(s[|t|..], t), t)
    else [s[0]] + RemoveDuplicates(s[1..], t)
  }

  /** Text before the first occurrence is copied unchanged. */
  lemma {:induction false} RemoveDuplicatesPrefix<T>(s: seq<T>, t: seq<T>, p: nat)
    requires |t| > 0 && p <= |s| && NoMatchBelow(s, t, p)
    ensures RemoveDuplicates(s, t) == s[..p] + RemoveDuplicates(s[p..], t)
    decreases p
  {
    if p > 0 {
      var tail := s[1..];
      assert RemoveDuplicates(s, t) == [s[0]] + RemoveDuplicates(tail, t) by {
        assert !MatchAt(s, t, 0);
      }
      assert RemoveDuplicates(tail, t) == tail[..p - 1] + RemoveDuplicates(tail[p - 1..], t) by {
        forall j: nat | j < p - 1 ensures !MatchAt(tail, t, j) {
          MatchTail(s, t, j);
        }
        RemoveDuplicatesPrefix(tail, t, p - 1);
      }
      assert tail[p - 1..] == s[p..];
      assert s[..p] == [s[0]] + tail[..p - 1];
    } else {
      assert s[..0] == [] && s[0..] == s;
    }
  }

  /** Cutting one leading copy of `t` off `s` leaves what `DropCopies` drops to. */
  lemma DropOneCopy<T>(s: seq<T>, t: seq<T>, n: nat)
    requires |t| > 0 && IsPrefix(t, s) && n == |s|
    ensures DropCopies(s[|t|..n], t) == DropCopies(s, t)
    ensures |s[|t|..n]| < |s|
  {
    assert s[|t|..n] == s[|t|..];
  }

  /** One round of `remove_duplicates`: everything up to and including the
      first occurrence (`s[0..cut]`) is kept, and the copies right after it
      are dropped. */
  lemma RemoveDuplicatesStep<T>(s: seq<T>, t: seq<T>, p: nat, cut: nat, n: nat)
    requires |t| > 0 && Find(s, t) == Some(p) && cut == p + |t| && n == |s|
    ensures cut <= n
    ensures RemoveDuplicates(s, t) == s[0..cut] + RemoveDuplicates(DropCopies(s[cut..n], t), t)
    ensures |DropCopies(s[cut..n], t)| < |s|
  {
    RemoveDuplicatesPrefix(s, t, p);
    RemoveDuplicatesAt(s, t, p, cut, n);
    var x := RemoveDuplicates(DropCopies(s[cut..n], t), t);
    assert s[..p] + (t + x) == (s[..p] + t) + x;
  }

  /** At a match the copy is kept and the copies right after it dropped. */
  lemma RemoveDuplicatesAt<T>(s: seq<T>, t: seq<T>, p: nat, cut: nat, n: nat)
    requires |t| > 0 && MatchAt(s, t, p) && cut == p + |t| && n == |s|
    ensures cut <= n && s[0..cut] == s[..p] + t
    ensures RemoveDuplicates(s[p..], t) == t + RemoveDuplicates(DropCopies(s[cut..n], t), t)
  {
    var rest := s[p..];
    assert IsPrefix(t, rest) by {
      assert rest[..|t|] == s[p..p + |t|];
    }
    RemoveDuplicatesHead(rest, t);
    assert rest[|t|..] == s[cut..n];
  }

  /** A leading copy is kept and the copies right after it dropped. */
  lemma RemoveDuplicatesHead<T>(r: seq<T>, t: seq<T>)
    requires |t| > 0 && IsPrefix(t, r)
    ensures RemoveDuplicates(r, t) == t + RemoveDuplicates(DropCopies(r[|t|..], t), t)
  {
  }

  lemma MatchTail<T>(s: seq<T>, t: seq<T>, j: nat)
    requires s != []
    ensures MatchAt(s[1..], t, j) <==> MatchAt(s, t, j + 1)
  {
    if j + |t| <= |s[1..]| {
      assert s[1..][j..j + |t|] == s[j + 1..j + 1 + |t|];
    }
  }

  /** Text without any copy of `t` is left unchanged. */
  lemma RemoveDuplicatesNoMatch<T>(s: seq<T>, t: seq<T>)
    requires |t| > 0
    requires forall j: nat :: !MatchAt(s, t, j)
    ensures RemoveDuplicates(s, t) == s
  {
    RemoveDuplicatesPrefix(s, t, |s|);
    assert s[|s|..] == [] && s[..|s|] == s;
  }

  /** `n` copies of `t` in a row, `n >= 1`, leave one. */
  lemma {:induction false} RemoveDuplicatesCollapse<T>(t: seq<T>, n: nat, rest: seq<T>)
    requires |t| > 0 && n >= 1
    requires !IsPrefix(t, rest)
    ensures RemoveDuplicates(Copies(t, n) + rest, t) == t + RemoveDuplicates(rest, t)
  {
    var s := Copies(t, n) + rest;
    assert IsPrefix(t, s) && s[|t|..] == Copies(t, n - 1) + rest by {
      assert s == t + (Copies(t, n - 1) + rest);
    }
    DropAllCopies(t, n - 1, rest);
  }

  /** `n` copies of `t`. */
  function Copies<T>(t: seq<T>, n: nat): (r: seq<T>)
    ensures |r| == n * |t|
  {
    if n == 0 then [] else t + Copies(t, n - 1)
  }

  lemma {:induction false} DropAllCopies<T>(t: seq<T>, n: nat, rest: seq<T>)
    requires |t| > 0 && !IsPrefix(t, rest)
    ensures DropCopies(Copies(t, n) + rest, t) == rest
  {
    if n > 0 {
      var s := Copies(t, n) + rest;
      assert IsPrefix(t, s) && s[|t|..] == Copies(t, n - 1) + rest by {
        assert s == t + (Copies(t, n - 1) + rest);
      }
      DropAllCopies(t, n - 1, rest);
    }
  }

  /** `s` with each run of consecutive `x` shortened to one `x`. */
  function Squeeze<T(==)>(s: seq<T>, x: T): (r: seq<T>)
    ensures |r| <= |s|
  {
    if |s| <= 1 then s
    else if s[0] == x && s[1] == x then Squeeze(s[1..], x)
    else [s[0]] + Squeeze(s[1..], x)
  }

  /** No two consecutive elements are both `x`. */
  predicate NoAdjacent<T(==)>(s: seq<T>, x: T)
  {
    forall k :: 0 <= k < |s| - 1 ==> !(s[k] == x && s[k + 1] == x)
  }

  /** The elements other than `x`, in order. */
  function Without<T(==)>(s: seq<T>, x: T): seq<T>
  {
    if s == [] then [] else (if s[0] == x then [] else [s[0]]) + Without(s[1..], x)
  }

  lemma {:induction false} SqueezeHead<T>(s: seq<T>, x: T)
    requires s != []
    ensures Squeeze(s, x) != [] && Squeeze(s, x)[0] == s[0]
    decreases |s|
  {
    if |s| > 1 && s[0] == x && s[1] == x {
      SqueezeHead(s[1..], x);
    }
  }

  /** Squeezing leaves no two `x` side by side. */
  lemma {:induction false} SqueezeNoAdjacent<T>(s: seq<T>, x: T)
    ensures NoAdjacent(Squeeze(s, x), x)
    decreases |s|
  {
    if |s| > 1 {
      SqueezeNoAdjacent(s[1..], x);
      if !(s[0] == x && s[1] == x) {
        var r := Squeeze(s[1..], x);
        SqueezeHead(s[1..], x);
        forall k | 0 <= k < |[s[0]] + r| - 1 ensures !(([s[0]] + r)[k] == x && ([s[0]] + r)[k + 1] == x) {
          if k > 0 { assert ([s[0]] + r)[k] == r[k - 1] && ([s[0]] + r)[k + 1] == r[k]; }
        }
      }
    }
  }

  /** Squeezing only removes copies of `x`: everything else survives in order. */
  lemma {:induction false} SqueezeWithout<T>(s: seq<T>, x: T)
    ensures Without(Squeeze(s, x), x) == Without(s, x)
    decreases |s|
  {
    if |s| > 1 {
      SqueezeWithout(s[1..], x);
      if !(s[0] == x && s[1] == x) {
        var r := Squeeze(s[1..], x);
        assert ([s[0]] + r)[1..] == r;
      }
    } else if |s| == 1 {
      assert s[1..] == [];
    }
  }

  /** Squeezing keeps only elements of the text. */
  lemma {:induction false} SqueezeMembers<T>(s: seq<T>, x: T)
    ensures forall j :: 0 <= j < |Squeeze(s, x)| ==> Squeeze(s, x)[j] in s
    decreases |s|
  {
    if |s| > 1 {
      SqueezeMembers(s[1..], x);
      assert forall j :: 0 <= j < |s[1..]| ==> s[1..][j] in s;
    }
  }

  /** Text with no two adjacent `x` is already squeezed. */
  lemma {:induction false} SqueezeIdentity<T>(s: seq<T>, x: T)
    requires NoAdjacent(s, x)
    ensures Squeeze(s, x) == s
    decreases |s|
  {
    if |s| > 1 {
      assert !(s[0] == x && s[1] == x);
      assert NoAdjacent(s[1..], x) by {
        forall k | 0 <= k < |s[1..]| - 1 ensures !(s[1..][k] == x && s[1..][k + 1] == x) {
          assert s[1..][k] == s[k + 1] && s[1..][k + 1] == s[k + 2];
        }
      }
      SqueezeIdentity(s[1..], x);
      assert s == [s[0]] + s[1..];
    }
  }

  /** For a one-symbol `t`, de-duplication is squeezing. */
  lemma {:induction false} RemoveDuplicatesSqueeze<T>(s: seq<T>, x: T)
    ensures RemoveDuplicates(s, [x]) == Squeeze(s, x)
    decreases |s|
  {
    if s != [] {
      if s[0] == x {
        assert IsPrefix([x], s) by { assert s[0..1] == [x]; }
        var rest := DropCopies(s[1..], [x]);
        RemoveDuplicatesSqueeze(rest, x);
        SqueezeDropped(s, x);
      } else {
        assert !IsPrefix([x], s) by { assert s[0..1] != [x]; }
        RemoveDuplicatesSqueeze(s[1..], x);
        if |s| == 1 { assert s[1..] == []; }
      }
    }
  }

  /** Squeezing a text that starts with `x`: one `x`, then the squeezed text
      after the leading run of `x`. */
  lemma {:induction false} SqueezeDropped<T>(s: seq<T>, x: T)
    requires s != [] && s[0] == x
    ensures Squeeze(s, x) == [x] + Squeeze(DropCopies(s[1..], [x]), x)
    decreases |s|
  {
    var t := s[1..];
    if t != [] && t[0] == x {
      assert IsPrefix([x], t) by { assert t[0..1] == [x]; }
      assert t[1..] == s[2..];
      SqueezeDropped(t, x);
    } else if t != [] {
      assert !IsPrefix([x], t) by { assert t[0..1] != [x]; }
    } else {
      assert !IsPrefix([x], t);
    }
  }

  //---------------------------------------------------------------------------
  // Lexicographic order
  //---------------------------------------------------------------------------

  /** The code-point order of the string: the first differing position
      decides; when one sequence runs out first, the shorter one is less. */
  predicate LexLess(a: seq<int>, b: seq<int>)
  {
    if a == [] || b == [] then |a| < |b|
    else if a[0] != b[0] then a[0] < b[0]
    else LexLess(a[1..], b[1..])
  }

  lemma {:induction false} LexLessIrreflexive(a: seq<int>)
    ensures !LexLess(a, a)
  {
    if a != [] {
      LexLessIrreflexive(a[1..]);
    }
  }

  lemma {:induction false} LexLessAsymmetric(a: seq<int>, b: seq<int>)
    requires LexLess(a, b)
    ensures !LexLess(b, a)
  {
    if a != [] && b != [] && a[0] == b[0] {
      LexLessAsymmetric(a[1..], b[1..]);
    }
  }

  lemma {:induction false} LexLessTransitive(a: seq<int>, b: seq<int>, c: seq<int>)
    requires LexLess(a, b) && LexLess(b, c)
    ensures LexLess(a, c)
  {
    if a != [] && b != [] && c != [] && a[0] == b[0] && b[0] == c[0] {
      LexLessTransitive(a[1..], b[1..], c[1..]);
    }
  }

  /** Distinct sequences are ordered one way or the other. */
  lemma {:induction false} LexLessTotal(a: seq<int>, b: seq<int>)
    requires a != b
    ensures LexLess(a, b) || LexLess(b, a)
  {
    if a != [] && b != [] && a[0] == b[0] {
      assert a == [a[0]] + a[1..] && b == [b[0]] + b[1..];
      LexLessTotal(a[1..], b[1..]);
    }
  }

  /** After a common prefix of length `i`, the pair at `i` decides when both
      sequences go on, and the lengths decide when one of them ends there. */
  lemma LexLessAt(a: seq<int>, b: seq<int>, i: nat)
    requires i <= |a| && i <= |b| && a[..i] == b[..i]
    ensures i < |a| && i < |b| && a[i] != b[i] ==> (LexLess(a, b) <==> a[i] < b[i])
    ensures i == |a| || i == |b| ==> (LexLess(a, b) <==> |a| < |b|)
  {
    LexLessCommonPrefix(a, b, i);
    if i < |a| && i < |b| {
      assert a[i..][0] == a[i] && b[i..][0] == b[i];
    } else {
      assert a[i..] == [] || b[i..] == [];
    }
  }

  /** After a common prefix of length `i`, the order is decided by what follows. */
  lemma {:induction false} LexLessCommonPrefix(a: seq<int>, b: seq<int>, i: nat)
    requires i <= |a| && i <= |b| && a[..i] == b[..i]
    ensures LexLess(a, b) == LexLess(a[i..], b[i..])
    decreases i
  {
    if i > 0 {
      assert a[0] == a[..i][0] && b[0] == b[..i][0];
      assert a[1..][..i - 1] == a[..i][1..] && b[1..][..i - 1] == b[..i][1..];
      LexLessCommonPrefix(a[1..], b[1..], i - 1);
      assert a[1..][i - 1..] == a[i..];
      assert b[1..][i - 1..] == b[i..];
    }
  }
}
