/** A file-system path: the sequence of string components a path text splits
    into at "/", with appending, insertion, removal, comparison and rendering
    back to Unix text. Components are the contents of UTF-8 strings, held by
    value as the source's vector of strings is. */
module Paths {
  import opened Base
  import opened Utf8
  import SymbolSeq
  import Strings

  /** `UNIX_SEP`: the one-symbol string "/". */
  const SEP: seq<byte> := [0x2F]

  //---------------------------------------------------------------------------
  // The shape of a parsed path, at any level (bytes or symbols)
  //---------------------------------------------------------------------------

  /** An empty first component stands for the root and becomes `root`. */
  function Rooted<T>(ps: seq<seq<T>>, root: seq<T>): (r: seq<seq<T>>)
    ensures |r| == |ps|
  {
    if |ps| > 0 && |ps[0]| == 0 then ps[0 := root] else ps
  }

  /** An empty last component (the text ended with "/") is dropped. */
  function Trimmed<T>(ps: seq<seq<T>>): (r: seq<seq<T>>)
    ensures |r| <= |ps| && r == ps[..|r|]
  {
    if |ps| > 0 && |ps[|ps| - 1]| == 0 then ps[..|ps| - 1] else ps
  }

  /** `to_unix`: the components joined with `sep`, a leading root component
      rendered as one `sep` in front. */
  function UnixText<T(==)>(cs: seq<seq<T>>, sep: seq<T>): seq<T>
  {
    if |cs| > 0 && cs[0] == sep then sep + SymbolSeq.Join(cs[1..], sep)
    else SymbolSeq.Join(cs, sep)
  }

  /** A de-duplicated text as a parsed path renders it: a trailing separator
      dropped unless it is the whole text, and the empty text read as the root. */
  function Normalised<T(==)>(q: seq<T>, x: T): (r: seq<T>)
    ensures r != []
  {
    if q == [] then [x]
    else if |q| > 1 && q[|q| - 1] == x then q[..|q| - 1]
    else q
  }

  /** The components the string constructor builds (Unix branch): the text
      de-duplicated at "/", split at "/", the root made explicit and a final
      empty component dropped. */
  ghost function UnixComponents(text: seq<byte>): seq<seq<byte>>
    requires WellFormed(text)
  {
    var pieces := SymbolSeq.Split(SymbolSeq.RemoveDuplicates(Symbols(text), [SEP]), [SEP]);
    Trimmed(Rooted(FlattenEach(pieces), SEP))
  }

  /** Index of the first component at or after `i` where `a` and `b`
      differ, or their length when there is none. */
  function FirstDifferenceFrom(a: seq<seq<byte>>, b: seq<seq<byte>>, i: nat): (d: nat)
    requires |a| == |b| && i <= |a|
    decreases |a| - i
    ensures i <= d <= |a|
    ensures d < |a| ==> a[d] != b[d]
    ensures forall k :: i <= k < d ==> a[k] == b[k]
  {
    if i == |a| then i
    else if a[i] != b[i] then i
    else FirstDifferenceFrom(a, b, i + 1)
  }

  /** The code-point order of paths: a shorter path is less; paths of equal
      length are ordered by their first differing component. */
  ghost predicate PathLess(a: seq<seq<byte>>, b: seq<seq<byte>>)
    requires forall k :: 0 <= k < |a| ==> WellFormed(a[k])
    requires forall k :: 0 <= k < |b| ==> WellFormed(b[k])
  {
    if |a| == |b| then
      var d := FirstDifferenceFrom(a, b, 0);
      d < |a| && WellFormed(a[d]) && WellFormed(b[d]) && Strings.TextLess(a[d], b[d])
    else |a| < |b|
  }

  /** The symbols of `c` after its last ".", or nothing when it has none. */
  ghost function ExtensionOf(c: seq<byte>): seq<byte>
    requires WellFormed(c)
  {
    var s := Symbols(c);
    match SymbolSeq.FindLast(s, [Strings.DOT])
    case None => []
    case Some(p) => Flatten(s[p + 1..])
  }

  /** What `get_extension` returns for the components `cs`: the extension of
      the final component, or nothing for the empty path. */
  ghost function Extension(cs: seq<seq<byte>>): seq<byte>
    requires cs != [] ==> WellFormed(cs[|cs| - 1])
  {
    if cs == [] then [] else ExtensionOf(cs[|cs| - 1])
  }

  /** `insert(index, c)` on a sequence. */
  function InsertAt<T>(s: seq<T>, index: nat, c: T): (r: seq<T>)
    requires index <= |s|
    ensures |r| == |s| + 1 && r[index] == c
    ensures forall k :: 0 <= k < index ==> r[k] == s[k]
    ensures forall k :: index < k <= |s| ==> r[k] == s[k - 1]
  {
    s[..index] + [c] + s[index..]
  }

  /** `remove(index)` on a sequence. */
  function RemoveAt<T>(s: seq<T>, index: nat): (r: seq<T>)
    requires index < |s|
    ensures |r| == |s| - 1
    ensures forall k :: 0 <= k < index ==> r[k] == s[k]
    ensures forall k :: index <= k < |r| ==> r[k] == s[k + 1]
  {
    s[..index] + s[index + 1..]
  }

  //---------------------------------------------------------------------------
  // The path object
  //---------------------------------------------------------------------------

  /** A path: `components` is `m_components`. */
  class Path {
    var components: seq<seq<byte>>

    /** Every component is well-formed text, as the components of a parsed
        path are. */
    ghost predicate Valid()
      reads this
    {
      forall k :: 0 <= k < |components| ==> WellFormed(components[k])
    }

    /** The empty path. */
    constructor ()
      ensures components == []
    {
      components := [];
    }

    /** A path from a vector of components. */
    constructor FromComponents(cs: seq<seq<byte>>)
      ensures components == cs
    {
      components := cs;
    }

    /** The range constructor: the components from `begin` up to `end`. */
    constructor FromRange(cs: seq<seq<byte>>, begin: nat, end: nat)
      requires begin <= end <= |cs|
      ensures |components| == end - begin
      ensures forall k :: 0 <= k < |components| ==> components[k] == cs[begin + k]
    {
      components := cs[begin..end];
    }

    /** The copy constructor. */
    constructor Copy(other: Path)
      ensures components == other.components
    {
      components := other.components;
    }

    /** The string constructor, Unix branch: a copy of the text has its runs
        of "/" collapsed, is split at "/", an empty first component becomes
        "/" and an empty last component is removed. */
    constructor FromString(text: Strings.Utf8String)
      requires text.Valid() && WellFormed(text.Content())
      ensures Valid() && components == UnixComponents(text.Content())
    {
      var cs := ParseUnix(text);
      components := cs;
    }

    /** `operator==`: the same number of components, pairwise equal as
        `strcmp` sees them. */
    method Equals(other: Path) returns (r: bool)
      ensures r <==> |components| == |other.components|
                     && forall k :: 0 <= k < |components| ==> TextEquals(components[k], other.components[k])
      ensures Valid() && other.Valid() ==> (r <==> components == other.components)
    {
      var a, b := components, other.components;
      if |a| != |b| {
        return false;
      }
      var i := 0;
      while i < |a|
        invariant i <= |a|
        invariant forall k :: 0 <= k < i ==> TextEquals(a[k], b[k])
      {
        if !TextEquals(a[i], b[i]) {
          return false;
        }
        i := i + 1;
      }
      if Valid() && other.Valid() {
        assert forall k :: 0 <= k < |a| ==> a[k] == b[k];
      }
      return true;
    }

    /** `operator!=`: the negation of `operator==`. */
    method NotEquals(other: Path) returns (r: bool)
      ensures Valid() && other.Valid() ==> (r <==> components != other.components)
    {
      var same := Equals(other);
      r := !same;
    }

    /** `operator=`: the other's components copied. */
    method Assign(other: Path)
      modifies this
      ensures components == old(other.components)
    {
      components := other.components;
    }

    /** `operator<`: a shorter path is less; for equal lengths the first
        differing components decide with the string order, and equal paths
        are not less. */
    method Less(other: Path) returns (r: bool)
      requires Valid() && other.Valid()
      ensures r == PathLess(components, other.components)
    {
      var a, b := components, other.components;
      if |a| == |b| {
        var i := 0;
        while i < |a|
          invariant i <= |a|
          invariant FirstDifferenceFrom(a, b, i) == FirstDifferenceFrom(a, b, 0)
        {
          if !TextEquals(a[i], b[i]) {
            r := ComponentLess(a[i], b[i]);
            return;
          }
          i := i + 1;
        }
        return false;
      }
      return |a| < |b|;
    }

    /** `operator+`: a new path with the other's components after these;
        this path is left as it is. */
    method Plus(other: Path) returns (r: Path)
      ensures fresh(r) && r.components == components + other.components
    {
      r := new Path.Copy(this);
      r.Extend(other);
    }

    /** `operator+=`: the other's components pushed one by one. */
    method Extend(other: Path)
      modifies this
      ensures components == old(components) + old(other.components)
    {
      var extra := other.components;
      ghost var start := components;
      var i := 0;
      while i < |extra|
        invariant i <= |extra| && components == start + extra[..i]
      {
        assert extra[..i + 1] == extra[..i] + [extra[i]];
        components := components + [extra[i]];
        i := i + 1;
      }
      assert extra[..|extra|] == extra;
    }

    /** `join` and `operator<<`: one component pushed at the end. */
    method Join(component: seq<byte>)
      modifies this
      ensures components == old(components) + [component]
    {
      components := components + [component];
    }

    /** `insert(index, c)`: IndexOutOfBoundsError beyond the end; otherwise the
        components rebuilt with `c` at `index`. */
    method Insert(index: nat, component: seq<byte>) returns (r: Result<()>)
      modifies this
      ensures index > old(|components|) ==> r == Failure(IndexOutOfBoundsError) && components == old(components)
      ensures index <= old(|components|) ==> r == Success(()) && components == InsertAt(old(components), index, component)
    {
      var cs := components;
      if index > |cs| {
        return Failure(IndexOutOfBoundsError);
      }
      var result: seq<seq<byte>> := [];
      var i := 0;
      while i <= |cs|
        invariant i <= |cs| + 1 && |result| == i
        invariant forall k :: 0 <= k < i ==> result[k] == InsertAt(cs, index, component)[k]
      {
        if i < index {
          result := result + [cs[i]];
        } else if i > index {
          result := result + [cs[i - 1]];
        } else {
          result := result + [component];
        }
        i := i + 1;
      }
      components := result;
      return Success(());
    }

    /** `clear`. */
    method Clear()
      modifies this
      ensures components == []
    {
      components := [];
    }

    /** `remove(index)`: IndexOutOfBoundsError unless `index` names a
        component; otherwise the components rebuilt without it. */
    method Remove(index: nat) returns (r: Result<()>)
      modifies this
      ensures index >= old(|components|) ==> r == Failure(IndexOutOfBoundsError) && components == old(components)
      ensures index < old(|components|) ==> r == Success(()) && components == RemoveAt(old(components), index)
    {
      var cs := components;
      if index >= |cs| {
        return Failure(IndexOutOfBoundsError);
      }
      var result: seq<seq<byte>> := [];
      var i := 0;
      while i < |cs|
        invariant i <= |cs| && |result| == if i <= index then i else i - 1
        invariant forall k :: 0 <= k < |result| ==> result[k] == RemoveAt(cs, index)[k]
      {
        if i < index {
          result := result + [cs[i]];
        } else if i > index {
          result := result + [cs[i]];
        }
        i := i + 1;
      }
      components := result;
      return Success(());
    }

    /** `to_unix`: the components joined with "/", a leading "/" component
        rendered as the root. */
    function ToUnix(): (r: seq<byte>)
      reads this
      ensures Valid() ==> r == UnixText(components, SEP)
    {
      var cs := components;
      if |cs| > 0 && TextEquals(cs[0], SEP) then SEP + SymbolSeq.Join(cs[1..], SEP)
      else SymbolSeq.Join(cs, SEP)
    }

    /** `get_length`. */
    function GetLength(): (n: nat)
      reads this
      ensures n == |components|
    {
      |components|
    }

    /** `is_empty`. */
    function IsEmpty(): (r: bool)
      reads this
      ensures r <==> components == []
    {
      |components| == 0
    }

    /** `get_front`: IndexOutOfBoundsError on an empty path. */
    function GetFront(): (r: Result<seq<byte>>)
      reads this
      ensures components == [] <==> r == Failure(IndexOutOfBoundsError)
      ensures r.Success? ==> r.value == components[0]
    {
      if IsEmpty() then Failure(IndexOutOfBoundsError) else Success(components[0])
    }

    /** `get_back`: IndexOutOfBoundsError on an empty path. */
    function GetBack(): (r: Result<seq<byte>>)
      reads this
      ensures components == [] <==> r == Failure(IndexOutOfBoundsError)
      ensures r.Success? ==> r.value == components[|components| - 1]
    {
      if IsEmpty() then Failure(IndexOutOfBoundsError) else Success(components[|components| - 1])
    }

    /** `get_extension`: `find_last(".")` on the final component and the
        substring after it; nothing when there is no final component or no ".". */
    method GetExtension() returns (r: seq<byte>)
      requires Valid()
      ensures r == Extension(components)
    {
      var cs := components;
      if |cs| > 0 {
        r := ComponentExtension(cs[|cs| - 1]);
      } else {
        r := [];
      }
    }
  }

  //---------------------------------------------------------------------------
  // The string work behind the path operations
  //---------------------------------------------------------------------------

  /** A string object holding the well-formed text `c`. */
  method StringOf(c: seq<byte>) returns (s: Strings.Utf8String)
    requires WellFormed(c)
    ensures fresh(s) && s.Valid() && WellFormed(s.Content()) && s.Content() == c
  {
    s := new Strings.Utf8String.FromBytes(c, |c|);
    assert c[..|c|] == c;
  }

  /** The content of the text with its runs of "/" collapsed
      (`remove_duplicates(UNIX_SEP)` on a copy). */
  method Sanitised(text: Strings.Utf8String, ghost t: seq<byte>) returns (q: seq<byte>)
    requires text.Valid() && WellFormed(text.Content()) && t == text.Content()
    ensures WellFormed(q) && Symbols(q) == SymbolSeq.RemoveDuplicates(Symbols(t), [SEP])
  {
    var s := new Strings.Utf8String.Copy(text);
    SepSymbols();
    var sep := StringOf(SEP);
    s.RemoveDuplicates(sep);
    q := s.Content();
  }

  /** `split(UNIX_SEP)` of well-formed content: well-formed pieces. */
  method SplitAtSep(q: seq<byte>) returns (pieces: seq<seq<byte>>)
    requires WellFormed(q)
    ensures pieces == FlattenEach(SymbolSeq.Split(Symbols(q), [SEP]))
    ensures forall k :: 0 <= k < |pieces| ==> WellFormed(pieces[k])
  {
    SplitPiecesWellFormed(q, [SEP]);
    SepSymbols();
    var s := StringOf(q);
    var sep := StringOf(SEP);
    var r := s.Split(sep);
    pieces := r.value;
  }

  /** The de-duplicated text split at "/". */
  method SplitUnix(text: Strings.Utf8String) returns (pieces: seq<seq<byte>>)
    requires text.Valid() && WellFormed(text.Content())
    ensures pieces == FlattenEach(SymbolSeq.Split(SymbolSeq.RemoveDuplicates(Symbols(text.Content()), [SEP]), [SEP]))
    ensures forall k :: 0 <= k < |pieces| ==> WellFormed(pieces[k])
  {
    var q := Sanitised(text, text.Content());
    pieces := SplitAtSep(q);
  }

  /** The components of `text` as the string constructor builds them. */
  method ParseUnix(text: Strings.Utf8String) returns (cs: seq<seq<byte>>)
    requires text.Valid() && WellFormed(text.Content())
    ensures cs == UnixComponents(text.Content())
    ensures forall k :: 0 <= k < |cs| ==> WellFormed(cs[k])
  {
    var pieces := SplitUnix(text);
    cs := FixEnds(pieces);
  }

  /** The end fixing of the string constructor: an empty first component
      becomes "/", then an empty last component is removed. */
  method FixEnds(ps: seq<seq<byte>>) returns (cs: seq<seq<byte>>)
    requires forall k :: 0 <= k < |ps| ==> WellFormed(ps[k])
    ensures cs == Trimmed(Rooted(ps, SEP))
    ensures forall k :: 0 <= k < |cs| ==> WellFormed(cs[k])
  {
    FixedEnds(ps);
    cs := ps;
    if |cs| > 0 && TextEquals(cs[0], []) {
      cs := cs[0 := SEP];
    }
    if |cs| > 0 && TextEquals(cs[|cs| - 1], []) {
      cs := cs[..|cs| - 1];
    }
  }

  /** `operator<` of two components. */
  method ComponentLess(a: seq<byte>, b: seq<byte>) returns (r: bool)
    requires WellFormed(a) && WellFormed(b)
    ensures r == Strings.TextLess(a, b)
  {
    var x := StringOf(a);
    var y := StringOf(b);
    r := x.Less(y);
  }

  /** `find_last(".")` on a component. */
  method LastDot(c: seq<byte>) returns (loc: Option<nat>)
    requires WellFormed(c)
    ensures loc == SymbolSeq.FindLast(Symbols(c), [Strings.DOT])
  {
    var s := StringOf(c);
    DotSymbols();
    var dot := StringOf(Strings.DOT);
    loc := s.FindLast(dot);
  }

  /** `substring(start, get_length())` of a component: everything from
      symbol `start` on. */
  method SymbolsFrom(c: seq<byte>, start: nat) returns (r: seq<byte>)
    requires WellFormed(c) && start <= |Symbols(c)|
    ensures WellFormed(r) && Symbols(r) == Symbols(c)[start..]
  {
    var s := StringOf(c);
    var n := s.GetLength();
    var sub := s.Substring(start, n);
    WholeTail(Symbols(c), start, n);
    r := sub.value.Content();
  }

  /** `substring(start, n)` with `n` the length reaches the end. */
  lemma WholeTail<T>(S: seq<T>, start: nat, n: nat)
    requires start <= |S| && n == |S|
    ensures S[start..Min(n, start + n)] == S[start..]
  {
  }

  /** `get_extension` on the final component. */
  method ComponentExtension(c: seq<byte>) returns (r: seq<byte>)
    requires WellFormed(c)
    ensures r == ExtensionOf(c)
  {
    var loc := LastDot(c);
    if loc.Some? {
      r := SymbolsFrom(c, loc.value + 1);
      FlattenSymbols(r);
    } else {
      r := [];
    }
  }

  //---------------------------------------------------------------------------
  // Lemmas
  //---------------------------------------------------------------------------

  /** "/" is one well-formed symbol. */
  lemma SepSymbols()
    ensures WellFormed(SEP) && Symbols(SEP) == [SEP]
  {
    assert Symbols(SEP, 1) == [];
    assert SEP[0..1] == SEP;
  }

  /** "." is one well-formed symbol. */
  lemma DotSymbols()
    ensures WellFormed(Strings.DOT) && Symbols(Strings.DOT) == [Strings.DOT]
  {
    assert Symbols(Strings.DOT, 1) == [];
    assert Strings.DOT[0..1] == Strings.DOT;
  }

  /** Every piece the split of well-formed content yields is well-formed. */
  lemma SplitPiecesWellFormed(c: seq<byte>, d: seq<seq<byte>>)
    requires WellFormed(c) && |d| > 0
    ensures forall k :: 0 <= k < |FlattenEach(SymbolSeq.Split(Symbols(c), d))| ==>
      WellFormed(FlattenEach(SymbolSeq.Split(Symbols(c), d))[k])
  {
    var ps := SymbolSeq.Split(Symbols(c), d);
    WellFormedSymbols(c);
    SymbolSeq.SplitMembers(Symbols(c), d);
    forall k | 0 <= k < |ps| ensures WellFormed(FlattenEach(ps)[k]) {
      GoodRunsWellFormed(ps[k]);
    }
  }

  /** The constructor's `== ""` tests on well-formed components are emptiness
      tests, and fixing the ends keeps the components well-formed. */
  lemma FixedEnds(ps: seq<seq<byte>>)
    requires forall k :: 0 <= k < |ps| ==> WellFormed(ps[k])
    ensures |ps| > 0 ==> (TextEquals(ps[0], []) <==> |ps[0]| == 0)
    ensures var r := Rooted(ps, SEP);
      && (forall k :: 0 <= k < |r| ==> WellFormed(r[k]))
      && (|r| > 0 ==> (TextEquals(r[|r| - 1], []) <==> |r[|r| - 1]| == 0))
      && (forall k :: 0 <= k < |Trimmed(r)| ==> WellFormed(Trimmed(r)[k]))
  {
    SepSymbols();
    var r := Rooted(ps, SEP);
    assert forall k :: 0 <= k < |r| ==> r[k] == ps[k] || r[k] == SEP;
    var t := Trimmed(r);
    assert forall k :: 0 <= k < |t| ==> t[k] == r[k];
  }

  /** Runs that are complete and free of zero bytes glue into well-formed text. */
  lemma GoodRunsWellFormed(rs: seq<seq<byte>>)
    requires forall j :: 0 <= j < |rs| ==> IsRun(rs[j]) && NoZero(rs[j])
    ensures WellFormed(Flatten(rs)) && Symbols(Flatten(rs)) == rs
  {
    SymbolsOfFlatten(rs);
    FlattenNoZero(rs);
  }

  //---------------------------------------------------------------------------
  // Rendering a parsed path
  //---------------------------------------------------------------------------

  /** At any level: rendering the pieces of a split, root made explicit and
      a final empty piece dropped, gives the joined text normalised. */
  lemma RenderSplit<T>(P: seq<seq<T>>, x: T)
    requires |P| >= 1
    requires forall k, j :: 0 <= k < |P| && 0 <= j < |P[k]| ==> P[k][j] != x
    ensures UnixText(Trimmed(Rooted(P, [x])), [x]) == Normalised(SymbolSeq.Join(P, [x]), x)
  {
    var n := |P|;
    assert Free(P[0], x) && Free(P[n - 1], x);
    if |P[0]| == 0 {
      if n == 1 {
        RenderRootOnly(P, x);
      } else if |P[n - 1]| == 0 {
        RenderRootedTrailing(P, x);
      } else {
        RenderRootedPlain(P, x);
      }
    } else if n >= 2 && |P[n - 1]| == 0 {
      RenderTrailing(P, x);
    } else {
      RenderPlain(P, x);
    }
  }

  /** No element of `p` is `x`. */
  predicate Free<T(==)>(p: seq<T>, x: T) {
    forall j :: 0 <= j < |p| ==> p[j] != x
  }

  /** The text was empty: the path is the root alone. */
  lemma RenderRootOnly<T>(P: seq<seq<T>>, x: T)
    requires |P| == 1 && |P[0]| == 0
    ensures UnixText(Trimmed(Rooted(P, [x])), [x]) == Normalised(SymbolSeq.Join(P, [x]), x)
  {
    assert Rooted(P, [x]) == [[x]];
    assert Trimmed([[x]]) == [[x]];
    assert [[x]][1..] == [];
  }

  /** The first piece is not empty and the last one is: the text had a
      trailing separator, which is dropped. */
  lemma RenderTrailing<T>(P: seq<seq<T>>, x: T)
    requires |P| >= 2 && |P[0]| > 0 && |P[|P| - 1]| == 0
    requires Free(P[0], x)
    ensures UnixText(Trimmed(Rooted(P, [x])), [x]) == Normalised(SymbolSeq.Join(P, [x]), x)
  {
    var n := |P|;
    var init := P[..n - 1];
    assert Trimmed(Rooted(P, [x])) == init;
    assert init[0] == P[0] && P[0] != [x] by {
      assert P[0][0] != x;
    }
    assert UnixText(init, [x]) == SymbolSeq.Join(init, [x]);
    assert P == init + [P[n - 1]];
    SymbolSeq.JoinSnoc(init, P[n - 1], [x]);
    JoinLength(init, [x]);
    var J := SymbolSeq.Join(P, [x]);
    assert J == SymbolSeq.Join(init, [x]) + [x];
    assert J[..|J| - 1] == SymbolSeq.Join(init, [x]);
  }

  /** Neither end is empty: the text renders as it is. */
  lemma RenderPlain<T>(P: seq<seq<T>>, x: T)
    requires |P| >= 1 && |P[0]| > 0 && |P[|P| - 1]| > 0
    requires Free(P[0], x) && Free(P[|P| - 1], x)
    ensures UnixText(Trimmed(Rooted(P, [x])), [x]) == Normalised(SymbolSeq.Join(P, [x]), x)
  {
    assert Trimmed(Rooted(P, [x])) == P;
    assert P[0] != [x] by {
      assert P[0][0] != x;
    }
    JoinLast(P, [x]);
  }

  /** The text started with a separator and ended with another one. */
  lemma RenderRootedTrailing<T>(P: seq<seq<T>>, x: T)
    requires |P| >= 2 && |P[0]| == 0 && |P[|P| - 1]| == 0
    ensures UnixText(Trimmed(Rooted(P, [x])), [x]) == Normalised(SymbolSeq.Join(P, [x]), x)
  {
    var mid := P[1..|P| - 1];
    RootedTrimmed(P, x);
    UnixTextRoot(mid, x);
    RootedJoin(P, x);
    var Q := P[1..];
    if |Q| == 1 {
      assert Q == [[]] && mid == [];
    } else {
      assert Q[|Q| - 1] == [];
      JoinDropEmpty(Q, x);
      assert Q[..|Q| - 1] == mid;
    }
  }

  /** Both ends fixed when the first and the last piece are empty. */
  lemma RootedTrimmed<T>(P: seq<seq<T>>, x: T)
    requires |P| >= 2 && |P[0]| == 0 && |P[|P| - 1]| == 0
    ensures Trimmed(Rooted(P, [x])) == [[x]] + P[1..|P| - 1]
  {
    var R := Rooted(P, [x]);
    assert R == P[0 := [x]];
    assert |R[|R| - 1]| == 0;
    assert R[..|R| - 1] == [[x]] + P[1..|P| - 1];
  }

  /** A leading root piece renders as one delimiter in front of the rest. */
  lemma UnixTextRoot<T>(mid: seq<seq<T>>, x: T)
    ensures UnixText([[x]] + mid, [x]) == [x] + SymbolSeq.Join(mid, [x])
  {
    assert ([[x]] + mid)[1..] == mid;
  }

  /** Joining pieces whose last one is empty ends with the delimiter. */
  lemma JoinDropEmpty<T>(Q: seq<seq<T>>, x: T)
    requires |Q| >= 2 && Q[|Q| - 1] == []
    ensures SymbolSeq.Join(Q, [x]) == SymbolSeq.Join(Q[..|Q| - 1], [x]) + [x]
  {
    var I := Q[..|Q| - 1];
    assert Q == I + [[]];
    SymbolSeq.JoinSnoc(I, [], [x]);
  }

  /** The text started with a separator but did not end with one. */
  lemma RenderRootedPlain<T>(P: seq<seq<T>>, x: T)
    requires |P| >= 2 && |P[0]| == 0 && |P[|P| - 1]| > 0
    requires Free(P[|P| - 1], x)
    ensures UnixText(Trimmed(Rooted(P, [x])), [x]) == Normalised(SymbolSeq.Join(P, [x]), x)
  {
    RootedKept(P, x);
    UnixTextRoot(P[1..], x);
    RootedJoin(P, x);
    JoinLast(P, [x]);
  }

  /** With a non-empty last piece only the root is put in place. */
  lemma RootedKept<T>(P: seq<seq<T>>, x: T)
    requires |P| >= 2 && |P[0]| == 0 && |P[|P| - 1]| > 0
    ensures Trimmed(Rooted(P, [x])) == [[x]] + P[1..]
  {
    var R := Rooted(P, [x]);
    assert R == P[0 := [x]];
    assert |R[|R| - 1]| > 0;
  }

  /** Joining pieces whose first one is empty starts with the delimiter. */
  lemma RootedJoin<T>(P: seq<seq<T>>, x: T)
    requires |P| >= 2 && |P[0]| == 0
    ensures SymbolSeq.Join(P, [x]) == [x] + SymbolSeq.Join(P[1..], [x])
  {
    SymbolSeq.JoinCons(P[0], P[1..], [x]);
    assert [P[0]] + P[1..] == P;
    assert P[0] == [];
  }

  /** The joined text ends with the last piece when that is not empty. */
  lemma JoinLast<T>(P: seq<seq<T>>, d: seq<T>)
    requires |P| >= 1 && |P[|P| - 1]| > 0
    ensures var J := SymbolSeq.Join(P, d);
      |J| >= 1 && J[|J| - 1] == P[|P| - 1][|P[|P| - 1]| - 1]
  {
    if |P| > 1 {
      assert P == P[..|P| - 1] + [P[|P| - 1]];
      SymbolSeq.JoinSnoc(P[..|P| - 1], P[|P| - 1], d);
    }
  }

  /** The joined text is at least as long as the first piece. */
  lemma JoinLength<T>(P: seq<seq<T>>, d: seq<T>)
    requires |P| >= 1
    ensures |SymbolSeq.Join(P, d)| >= |P[0]|
  {
    if |P| > 1 {
      SymbolSeq.JoinCons(P[0], P[1..], d);
      assert [P[0]] + P[1..] == P;
    }
  }

  /** Complete runs glue into nothing only when there are none. */
  lemma FlattenEmpty(p: seq<seq<byte>>)
    requires AllRuns(p)
    ensures Flatten(p) == [] <==> p == []
  {
    if p != [] {
      assert |p[|p| - 1]| >= 1;
    }
  }

  /** Complete runs glue into "/" only when they are the one symbol "/". */
  lemma FlattenSep(p: seq<seq<byte>>)
    requires AllRuns(p)
    ensures Flatten(p) == SEP <==> p == [SEP]
  {
    SepSymbols();
    SymbolsOfFlatten(p);
    if p == [SEP] {
      assert Flatten(p) == Flatten([]) + SEP;
    }
  }

  /** Flattening the symbol-level join with the one-symbol delimiter `[r]`
      gives the byte-level join with `r`. */
  lemma {:induction false} FlattenJoin(P: seq<seq<seq<byte>>>, r: seq<byte>)
    ensures Flatten(SymbolSeq.Join(P, [r])) == SymbolSeq.Join(FlattenEach(P), r)
    decreases |P|
  {
    if |P| == 1 {
    } else if |P| > 1 {
      SymbolSeq.JoinCons(P[0], P[1..], [r]);
      assert [P[0]] + P[1..] == P;
      var F := FlattenEach(P);
      assert F[1..] == FlattenEach(P[1..]);
      SymbolSeq.JoinCons(F[0], F[1..], r);
      assert [F[0]] + F[1..] == F;
      FlattenJoin(P[1..], r);
      FlattenAppend(P[0] + [r], SymbolSeq.Join(P[1..], [r]));
      FlattenSnoc(P[0], r);
    }
  }

  /** Making the root explicit commutes with flattening the pieces. */
  lemma FlattenEachRooted(P: seq<seq<seq<byte>>>)
    requires forall k :: 0 <= k < |P| ==> AllRuns(P[k])
    ensures Rooted(FlattenEach(P), SEP) == FlattenEach(Rooted(P, [SEP]))
  {
    if |P| > 0 && |P[0]| == 0 {
      assert FlattenEach(P)[0] == [];
      assert Flatten([SEP]) == SEP by {
        assert [SEP][..0] == [];
      }
      FlattenEachUpdate(P, 0, [SEP]);
    } else if |P| > 0 {
      FlattenEmpty(P[0]);
      assert |FlattenEach(P)[0]| > 0;
    }
  }

  /** Replacing one piece replaces its flattening. */
  lemma FlattenEachUpdate(P: seq<seq<seq<byte>>>, i: nat, r: seq<seq<byte>>)
    requires i < |P|
    ensures FlattenEach(P[i := r]) == FlattenEach(P)[i := Flatten(r)]
  {
    var A, B := FlattenEach(P[i := r]), FlattenEach(P)[i := Flatten(r)];
    assert |A| == |B|;
    forall k | 0 <= k < |A| ensures A[k] == B[k] {
    }
  }

  /** Dropping an empty last piece commutes with flattening the pieces. */
  lemma FlattenEachTrimmed(R: seq<seq<seq<byte>>>)
    requires forall k :: 0 <= k < |R| ==> AllRuns(R[k])
    ensures Trimmed(FlattenEach(R)) == FlattenEach(Trimmed(R))
  {
    if |R| > 0 {
      FlattenEmpty(R[|R| - 1]);
      FlattenEachPrefix(R, |Trimmed(R)|);
    }
  }

  /** Flattening a prefix of the pieces gives a prefix of the flattenings. */
  lemma FlattenEachPrefix(R: seq<seq<seq<byte>>>, n: nat)
    requires n <= |R|
    ensures FlattenEach(R)[..n] == FlattenEach(R[..n])
  {
    var A, B := FlattenEach(R)[..n], FlattenEach(R[..n]);
    forall k | 0 <= k < n
      ensures A[k] == B[k]
    {
      assert R[..n][k] == R[k];
      assert A[k] == FlattenEach(R)[k] == Flatten(R[k]);
    }
    assert |A| == |B|;
  }

  /** Both ends fixed, at the byte level or at the symbol level. */
  lemma FlattenEachEnds(P: seq<seq<seq<byte>>>)
    requires forall k :: 0 <= k < |P| ==> AllRuns(P[k])
    ensures Trimmed(Rooted(FlattenEach(P), SEP)) == FlattenEach(Trimmed(Rooted(P, [SEP])))
    ensures forall k :: 0 <= k < |Trimmed(Rooted(P, [SEP]))| ==> AllRuns(Trimmed(Rooted(P, [SEP]))[k])
  {
    FlattenEachRooted(P);
    RootedRuns(P);
    FlattenEachTrimmed(Rooted(P, [SEP]));
  }

  /** Putting the root "/" in place of an empty first piece keeps every piece
      made of complete runs. */
  lemma RootedRuns(P: seq<seq<seq<byte>>>)
    requires forall k :: 0 <= k < |P| ==> AllRuns(P[k])
    ensures forall k :: 0 <= k < |P| ==> AllRuns(Rooted(P, [SEP])[k])
  {
    assert IsRun(SEP);
    assert AllRuns([SEP]);
  }

  /** Rendering flattened pieces is flattening the rendered pieces. */
  lemma FlattenUnixText(P: seq<seq<seq<byte>>>)
    requires forall k :: 0 <= k < |P| ==> AllRuns(P[k])
    ensures UnixText(FlattenEach(P), SEP) == Flatten(UnixText(P, [SEP]))
  {
    if |P| > 0 && P[0] == [SEP] {
      FlattenUnixTextRooted(P);
    } else {
      if |P| > 0 {
        FlattenSep(P[0]);
      }
      FlattenJoin(P, SEP);
    }
  }

  /** The same when the first piece is the root "/". */
  lemma FlattenUnixTextRooted(P: seq<seq<seq<byte>>>)
    requires |P| > 0 && P[0] == [SEP]
    ensures UnixText(FlattenEach(P), SEP) == Flatten(UnixText(P, [SEP]))
  {
    var F := FlattenEach(P);
    assert Flatten([SEP]) == SEP by {
      assert [SEP][..0] == [];
    }
    assert F[1..] == FlattenEach(P[1..]);
    FlattenJoin(P[1..], SEP);
    FlattenCons(SEP, SymbolSeq.Join(P[1..], [SEP]));
  }

  /** The pieces the constructor splits a text into: complete runs, none of
      them "/", joining back into the de-duplicated text. */
  lemma ParsedPieces(t: seq<byte>)
    requires WellFormed(t)
    ensures var Q := SymbolSeq.RemoveDuplicates(Symbols(t), [SEP]);
      var P := SymbolSeq.Split(Q, [SEP]);
      && |P| >= 1
      && (forall k :: 0 <= k < |P| ==> AllRuns(P[k]))
      && (forall k, j :: 0 <= k < |P| && 0 <= j < |P[k]| ==> P[k][j] != SEP)
      && SymbolSeq.Join(P, [SEP]) == Q
  {
    var S := Symbols(t);
    var Q := SymbolSeq.RemoveDuplicates(S, [SEP]);
    var P := SymbolSeq.Split(Q, [SEP]);
    WellFormedSymbols(t);
    SymbolSeq.RemoveDuplicatesSqueeze(S, SEP);
    SymbolSeq.SqueezeMembers(S, SEP);
    SymbolSeq.SplitMembers(Q, [SEP]);
    SymbolSeq.SplitPiecesFree(Q, [SEP]);
    forall k, j | 0 <= k < |P| && 0 <= j < |P[k]| ensures P[k][j] != SEP {
      if P[k][j] == SEP {
        assert P[k][j..j + 1] == [SEP];
        assert SymbolSeq.MatchAt(P[k], [SEP], j);
      }
    }
    SymbolSeq.SplitCount(Q, [SEP]);
    SymbolSeq.SplitJoin(Q, [SEP]);
  }

  /** Parsing a text and rendering it with `to_unix` gives the text with its
      runs of "/" collapsed and a trailing "/" dropped; the empty text and "/"
      both render as "/". */
  lemma RenderParsed(t: seq<byte>)
    requires WellFormed(t)
    ensures UnixText(UnixComponents(t), SEP)
         == Flatten(Normalised(SymbolSeq.RemoveDuplicates(Symbols(t), [SEP]), SEP))
  {
    var Q := SymbolSeq.RemoveDuplicates(Symbols(t), [SEP]);
    var P := SymbolSeq.Split(Q, [SEP]);
    ParsedPieces(t);
    FlattenEachEnds(P);
    FlattenUnixText(Trimmed(Rooted(P, [SEP])));
    RenderSplit(P, SEP);
  }

  //---------------------------------------------------------------------------
  // Insertion and removal
  //---------------------------------------------------------------------------

  /** Removing the component just inserted gives the path back. */
  lemma RemoveInserted<T>(s: seq<T>, index: nat, c: T)
    requires index <= |s|
    ensures RemoveAt(InsertAt(s, index, c), index) == s
  {
    var t := InsertAt(s, index, c);
    assert t[..index] == s[..index];
    assert t[index + 1..] == s[index..];
    assert s[..index] + s[index..] == s;
  }

  /** Re-inserting the component just removed gives the path back. */
  lemma InsertRemoved<T>(s: seq<T>, index: nat)
    requires index < |s|
    ensures InsertAt(RemoveAt(s, index), index, s[index]) == s
  {
    var t := RemoveAt(s, index);
    assert t[..index] == s[..index];
    assert t[index..] == s[index + 1..];
    assert s[..index] + [s[index]] + s[index + 1..] == s;
  }

  //---------------------------------------------------------------------------
  // The order of paths
  //---------------------------------------------------------------------------

  /** `FirstDifferenceFrom` does not depend on the order of its arguments. */
  lemma {:induction false} FirstDifferenceSymmetric(a: seq<seq<byte>>, b: seq<seq<byte>>, i: nat)
    requires |a| == |b| && i <= |a|
    ensures FirstDifferenceFrom(a, b, i) == FirstDifferenceFrom(b, a, i)
    decreases |a| - i
  {
    if i < |a| && a[i] == b[i] {
      FirstDifferenceSymmetric(a, b, i + 1);
    }
  }

  /** An index with equal components before it and different components at
      it (or the end) is the first difference. */
  lemma {:induction false} FirstDifferenceIs(a: seq<seq<byte>>, b: seq<seq<byte>>, i: nat, d: nat)
    requires |a| == |b| && i <= d <= |a|
    requires forall k :: i <= k < d ==> a[k] == b[k]
    requires d < |a| ==> a[d] != b[d]
    ensures FirstDifferenceFrom(a, b, i) == d
    decreases d - i
  {
    if i < d {
      FirstDifferenceIs(a, b, i + 1, d);
    }
  }

  /** No path is less than itself. */
  lemma PathLessIrreflexive(a: seq<seq<byte>>)
    requires forall k :: 0 <= k < |a| ==> WellFormed(a[k])
    ensures !PathLess(a, a)
  {
    assert FirstDifferenceFrom(a, a, 0) == |a|;
  }

  /** Two paths are never each less than the other. */
  lemma PathLessAsymmetric(a: seq<seq<byte>>, b: seq<seq<byte>>)
    requires forall k :: 0 <= k < |a| ==> WellFormed(a[k])
    requires forall k :: 0 <= k < |b| ==> WellFormed(b[k])
    requires PathLess(a, b)
    ensures !PathLess(b, a)
  {
    if |a| == |b| {
      FirstDifferenceSymmetric(a, b, 0);
      var d := FirstDifferenceFrom(a, b, 0);
      Strings.TextLessAsymmetric(a[d], b[d]);
    }
  }

  /** The order of paths is transitive. */
  lemma PathLessTransitive(a: seq<seq<byte>>, b: seq<seq<byte>>, c: seq<seq<byte>>)
    requires forall k :: 0 <= k < |a| ==> WellFormed(a[k])
    requires forall k :: 0 <= k < |b| ==> WellFormed(b[k])
    requires forall k :: 0 <= k < |c| ==> WellFormed(c[k])
    requires PathLess(a, b) && PathLess(b, c)
    ensures PathLess(a, c)
  {
    if |a| == |b| == |c| {
      var d1 := FirstDifferenceFrom(a, b, 0);
      var d2 := FirstDifferenceFrom(b, c, 0);
      if d1 < d2 {
        FirstDifferenceIs(a, c, 0, d1);
      } else if d2 < d1 {
        FirstDifferenceIs(a, c, 0, d2);
      } else {
        Strings.TextLessTransitive(a[d1], b[d1], c[d1]);
        FirstDifferenceIs(a, c, 0, d1);
      }
    }
  }

  //---------------------------------------------------------------------------
  // Extensions
  //---------------------------------------------------------------------------

  /** `s` ends with a "." followed by `e`. */
  ghost predicate EndsAfterDot(s: seq<seq<byte>>, e: seq<seq<byte>>)
  {
    |e| < |s| && s[|s| - |e| - 1] == Strings.DOT && s[|s| - |e|..] == e
  }

  /** The extension is the well-formed text after the last "." of the
      component, holding no "." itself; without a "." it is empty. */
  lemma ExtensionAfterLastDot(c: seq<byte>)
    requires WellFormed(c)
    ensures WellFormed(ExtensionOf(c))
    ensures Strings.DOT !in Symbols(ExtensionOf(c))
    ensures Strings.DOT !in Symbols(c) ==> ExtensionOf(c) == []
    ensures Strings.DOT in Symbols(c) ==> EndsAfterDot(Symbols(c), Symbols(ExtensionOf(c)))
  {
    var s := Symbols(c);
    match SymbolSeq.FindLast(s, [Strings.DOT])
    case Some(p) =>
      LastMatchOne(s, Strings.DOT, p);
      ExtensionIs(c, p);
      ExtensionFound(c, p, ExtensionOf(c));
    case None =>
      ExtensionMissing(c);
  }

  /** Without a "." the extension is empty. */
  lemma ExtensionMissing(c: seq<byte>)
    requires WellFormed(c) && SymbolSeq.FindLast(Symbols(c), [Strings.DOT]) == None
    ensures Strings.DOT !in Symbols(c) && ExtensionOf(c) == []
    ensures WellFormed([]) && Symbols([]) == []
  {
    NoMatchOne(Symbols(c), Strings.DOT);
  }

  /** The text of the symbols after a "." at `p` that has no "." after it:
      well-formed, holding exactly those symbols. */
  lemma ExtensionFound(c: seq<byte>, p: nat, x: seq<byte>)
    requires WellFormed(c) && p < |Symbols(c)| && Symbols(c)[p] == Strings.DOT
    requires forall j :: p < j < |Symbols(c)| ==> Symbols(c)[j] != Strings.DOT
    requires x == Flatten(Symbols(c)[p + 1..])
    ensures WellFormed(x) && Strings.DOT in Symbols(c)
    ensures Strings.DOT !in Symbols(x)
    ensures EndsAfterDot(Symbols(c), Symbols(x))
  {
    var s := Symbols(c);
    SliceSymbols(c, p + 1, |s|);
    assert s[p + 1..|s|] == s[p + 1..];
    assert Symbols(x) == s[p + 1..];
    DotBefore(s, p);
  }

  /** What follows a "." with no "." after it holds no "." and ends `s`. */
  lemma DotBefore(s: seq<seq<byte>>, p: nat)
    requires p < |s| && s[p] == Strings.DOT
    requires forall j :: p < j < |s| ==> s[j] != Strings.DOT
    ensures Strings.DOT in s && Strings.DOT !in s[p + 1..]
    ensures EndsAfterDot(s, s[p + 1..])
  {
    var e := s[p + 1..];
    assert |s| - |e| - 1 == p;
    forall j | 0 <= j < |e|
      ensures e[j] != Strings.DOT
    {
      assert e[j] == s[p + 1 + j];
    }
  }

  /** The extension is the text of the symbols after the last ".". */
  lemma ExtensionIs(c: seq<byte>, p: nat)
    requires WellFormed(c) && SymbolSeq.FindLast(Symbols(c), [Strings.DOT]) == Some(p)
    ensures ExtensionOf(c) == Flatten(Symbols(c)[p + 1..])
  {
  }

  /** After the last match of the one-element `[x]`, no element is `x`. */
  lemma LastMatchOne<T>(s: seq<T>, x: T, p: nat)
    requires SymbolSeq.MatchAt(s, [x], p)
    requires forall j: nat :: p < j ==> !SymbolSeq.MatchAt(s, [x], j)
    ensures p < |s| && s[p] == x
    ensures forall j :: p < j < |s| ==> s[j] != x
  {
    assert s[p..p + 1][0] == s[p];
    forall j | p < j < |s| ensures s[j] != x {
      if s[j] == x {
        assert s[j..j + 1] == [x];
        assert SymbolSeq.MatchAt(s, [x], j);
      }
    }
  }

  /** Without a match of the one-element `[x]`, no element is `x`. */
  lemma NoMatchOne<T>(s: seq<T>, x: T)
    requires forall j: nat :: !SymbolSeq.MatchAt(s, [x], j)
    ensures x !in s
  {
    if x in s {
      var i :| 0 <= i < |s| && s[i] == x;
      assert s[i..i + 1] == [x];
      assert SymbolSeq.MatchAt(s, [x], i);
    }
  }

  //---------------------------------------------------------------------------
  // Examples
  //---------------------------------------------------------------------------

  /** The empty text is the root path. */
  lemma EmptyTextIsRoot()
    ensures UnixComponents([]) == [SEP]
  {
    assert Symbols([]) == [];
    assert SymbolSeq.RemoveDuplicates([], [SEP]) == [];
    assert SymbolSeq.Split([], [SEP]) == [[]];
    assert FlattenEach([[]]) == [[]];
  }

  /** "/a//b/" is well-formed and parses to the root, "a" and "b". */
  lemma RootedExample()
    ensures WellFormed([0x2F, 0x61, 0x2F, 0x2F, 0x62, 0x2F])
    ensures UnixComponents([0x2F, 0x61, 0x2F, 0x2F, 0x62, 0x2F]) == [SEP, [0x61], [0x62]]
  {
    var a, b: seq<byte> := [0x61], [0x62];
    var rs := [SEP, a, SEP, SEP, b, SEP];
    ExampleSymbols(rs);
    var q := [SEP, a, SEP, b, SEP];
    ExampleSqueeze(rs, q);
    SymbolSeq.RemoveDuplicatesSqueeze(rs, SEP);
    ExampleSplit(q, a, b);
    assert FlattenEach([[], [a], [b], []]) == [[], a, b, []] by {
      FlattenOne(a);
      FlattenOne(b);
    }
  }

  /** The runs of the example text. */
  lemma ExampleSymbols(rs: seq<seq<byte>>)
    requires rs == [SEP, [0x61], SEP, SEP, [0x62], SEP]
    ensures Flatten(rs) == [0x2F, 0x61, 0x2F, 0x2F, 0x62, 0x2F]
    ensures WellFormed(Flatten(rs)) && Symbols(Flatten(rs)) == rs
  {
    FlattenOne(SEP);
    assert rs[..1] == [SEP] && rs[..2][..1] == rs[..1];
    assert rs[..3][..2] == rs[..2] && rs[..4][..3] == rs[..3];
    assert rs[..5][..4] == rs[..4] && rs[..5] == rs[..|rs| - 1];
    assert Flatten(rs[..2]) == [0x2F, 0x61];
    assert Flatten(rs[..3]) == [0x2F, 0x61, 0x2F];
    assert Flatten(rs[..4]) == [0x2F, 0x61, 0x2F, 0x2F];
    assert Flatten(rs[..5]) == [0x2F, 0x61, 0x2F, 0x2F, 0x62];
    GoodRunsWellFormed(rs);
  }

  /** A one-symbol list flattens to its symbol. */
  lemma FlattenOne(r: seq<byte>)
    ensures Flatten([r]) == r
  {
    assert [r][..0] == [];
  }

  /** Collapsing the example's "//". */
  lemma ExampleSqueeze(rs: seq<seq<byte>>, q: seq<seq<byte>>)
    requires rs == [SEP, [0x61], SEP, SEP, [0x62], SEP] && q == [SEP, [0x61], SEP, [0x62], SEP]
    ensures SymbolSeq.Squeeze(rs, SEP) == q
  {
    assert SymbolSeq.Squeeze(rs[4..], SEP) == q[3..];
    assert SymbolSeq.Squeeze(rs[3..], SEP) == q[2..];
    assert SymbolSeq.Squeeze(rs[2..], SEP) == q[2..];
    assert SymbolSeq.Squeeze(rs[1..], SEP) == q[1..];
  }

  /** Splitting the collapsed example at "/". */
  lemma ExampleSplit(q: seq<seq<byte>>, a: seq<byte>, b: seq<byte>)
    requires a == [0x61] && b == [0x62] && q == [SEP, a, SEP, b, SEP]
    ensures SymbolSeq.Split(q, [SEP]) == [[], [a], [b], []]
  {
    assert a != SEP && b != SEP by {
      assert a[0] != SEP[0] && b[0] != SEP[0];
    }
    assert q[1..2] == [a] && q[3..4] == [b];
    assert !SymbolSeq.MatchAt(q, [SEP], 1) && !SymbolSeq.MatchAt(q, [SEP], 3);
    assert SymbolSeq.MatchAt(q, [SEP], 0) && SymbolSeq.MatchAt(q, [SEP], 2) && SymbolSeq.MatchAt(q, [SEP], 4);
    assert SymbolSeq.SplitFrom(q, [SEP], 5, []) == [[]];
    assert SymbolSeq.SplitFrom(q, [SEP], 4, [b]) == [[b], []];
    assert [] + [q[3]] == [b] && [] + [q[1]] == [a];
    assert SymbolSeq.SplitFrom(q, [SEP], 3, []) == [[b], []];
    assert SymbolSeq.SplitFrom(q, [SEP], 2, [a]) == [[a], [b], []];
    assert SymbolSeq.SplitFrom(q, [SEP], 1, []) == [[a], [b], []];
  }
}
