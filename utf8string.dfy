/** The UTF-8 string class: a zero-terminated byte buffer together with its
    symbol count, rebuilt by every mutator, and the symbol-wise queries over
    it, each proved against the byte layer (`Utf8`) and the reference
    algorithms (`SymbolSeq`). */
module Strings {
  import opened Base
  import opened Utf8
  import SymbolSeq

  /** The one-symbol strings the source compares against. */
  const MINUS: seq<byte> := [0x2D]
  const DOT: seq<byte> := [0x2E]
  const ZERO: seq<byte> := [0x30]

  /** '0' to '9'. */
  predicate IsDigit(v: nat)
  {
    0x30 <= v <= 0x39
  }

  //---------------------------------------------------------------------------
  // What the digit predicates accept, symbol by symbol
  //---------------------------------------------------------------------------

  /** `is_uint`: non-empty, and every symbol value is a digit. */
  predicate IsUintText(s: seq<seq<byte>>)
  {
    |s| > 0 && forall k :: 0 <= k < |s| ==> IsDigit(SymbolValue(s[k]))
  }

  /** The test `is_int` applies to symbol `k`: its code point is a digit, or it
      is the first symbol and reads "-". */
  predicate IntSymbolOk(s: seq<seq<byte>>, k: nat)
    requires k < |s| && IsRun(s[k])
  {
    IsDigit(CodePoint(s[k])) || (k == 0 && s[k] == MINUS)
  }

  /** `is_int`: non-empty, and every symbol passes the test above (every
      symbol being a complete run, which aligned content guarantees). */
  predicate IsIntText(s: seq<seq<byte>>)
  {
    AllRuns(s) && |s| > 0 && forall k :: 0 <= k < |s| ==> IntSymbolOk(s, k)
  }

  /** The test `is_float` applies to symbol `k`, apart from the count of points. */
  predicate FloatSymbolOk(s: seq<seq<byte>>, k: nat)
    requires k < |s|
  {
    IsDigit(SymbolValue(s[k])) || (k == 0 && s[k] == MINUS) || s[k] == DOT
  }

  /** `is_float`: non-empty, every symbol a digit, a leading "-" or a ".",
      and at most one ".". */
  predicate IsFloatText(s: seq<seq<byte>>)
  {
    && |s| > 0
    && (forall k :: 0 <= k < |s| ==> FloatSymbolOk(s, k))
    && (forall j, k :: 0 <= j < k < |s| ==> !(s[j] == DOT && s[k] == DOT))
  }

  /** `to_bool` on a valid integer text: some symbol is not "0". */
  predicate BoolText(s: seq<seq<byte>>)
  {
    exists k :: 0 <= k < |s| && s[k] != ZERO
  }

  /** `operator<`: the code-point order of the two contents. */
  ghost predicate TextLess(a: seq<byte>, b: seq<byte>)
    requires Aligned(a) && Aligned(b)
  {
    AlignedRuns(a);
    AlignedRuns(b);
    SymbolSeq.LexLess(CodePoints(Symbols(a)), CodePoints(Symbols(b)))
  }

  /** The integer widths of the `to_*` conversions. */
  datatype IntegerKind = Int32 | UInt32 | Int64 | UInt64
  {
    predicate Signed()
    {
      this == Int32 || this == Int64
    }
  }

  /** A UTF-8 string. `data` is the buffer with its zero terminator
      (`m_data`, its length `m_data_length`); `length` is the symbol count
      (`m_length`). The buffers are never written after they are installed,
      so only the two fields change. */
  class Utf8String {
    var data: array<byte>
    var length: nat

    /** The buffer ends in its terminator and the symbol count is the number of
        width steps over the bytes before it. */
    ghost predicate Valid()
      reads this, data
    {
      data.Length >= 1 && data[data.Length - 1] == 0 && length == SymbolCount(Content())
    }

    /** The bytes before the terminator (what `to_std_string` returns). */
    function Content(): (c: seq<byte>)
      reads this, data
      ensures data.Length >= 1 ==> data[..] == c + [data[data.Length - 1]]
    {
      if data.Length == 0 then [] else data[..data.Length - 1]
    }

    /** The symbols of the content. */
    ghost function Syms(): seq<seq<byte>>
      reads this, data
    {
      Symbols(Content())
    }

    /** The symbols as `strcmp` sees them when `get_symbol` results are compared. */
    ghost function SymbolKeys(): seq<seq<byte>>
      reads this, data
    {
      Keys(Syms())
    }

    //-------------------------------------------------------------------------
    // Index checks and width
    //-------------------------------------------------------------------------

    /** `check_symbol_index`: IndexOutOfBoundsError unless `k` is below the count. */
    function CheckSymbolIndex(k: nat): (r: Result<nat>)
      reads this
      ensures r.Success? <==> k < length
      ensures r.Success? ==> r.value == k
      ensures r.Failure? ==> r.error == IndexOutOfBoundsError
    {
      if k >= length then Failure(IndexOutOfBoundsError) else Success(k)
    }

    /** `check_byte_index`: IndexOutOfBoundsError unless `b` lies in the buffer,
        terminator included. */
    function CheckByteIndex(b: nat): (r: Result<nat>)
      reads this
      ensures r.Success? <==> b < data.Length
      ensures r.Success? ==> r.value == b
      ensures r.Failure? ==> r.error == IndexOutOfBoundsError
    {
      if b >= data.Length then Failure(IndexOutOfBoundsError) else Success(b)
    }

    /** `get_byte_width`: the width the byte at `b` announces, read with the
        source's masks; the byte index is checked first. */
    function GetByteWidth(b: nat): (r: Result<nat>)
      reads this, data
      ensures b >= data.Length ==> r == Failure(IndexOutOfBoundsError)
      ensures b < data.Length ==> r == Success(Width(data[b]))
    {
      if b >= data.Length then Failure(IndexOutOfBoundsError)
      else
        var x := data[b] as bv8;
        MaskWidth(data[b]);
        if x & 0x80 == 0 then Success(1)
        else if x & 0xE0 == 0xC0 then Success(2)
        else if x & 0xF0 == 0xE0 then Success(3)
        else Success(4)
    }

    //-------------------------------------------------------------------------
    // Buffer rebuilds
    //-------------------------------------------------------------------------

    /** `assign_internal`: copy `src` into a new buffer and recount. `None` for
        the length is `npos`: `src` is a C string and its terminator is copied
        with it. An explicit length whose last byte is zero is taken as is;
        otherwise a terminator is added after the `n` bytes. */
    method AssignInternal(src: seq<byte>, existingLength: Option<nat>)
      requires existingLength.None? ==> 0 in src
      requires existingLength.Some? ==> existingLength.value <= |src|
      modifies this
      ensures Valid() && fresh(data)
      ensures existingLength.None? ==> Content() == src[..CStrLen(src)]
      ensures existingLength.Some? && existingLength.value > 0 && src[existingLength.value - 1] == 0
              ==> Content() == src[..existingLength.value - 1]
      ensures existingLength.Some? && !(existingLength.value > 0 && src[existingLength.value - 1] == 0)
              ==> Content() == src[..existingLength.value]
    {
      ghost var c := AssignedContent(src, existingLength);
      var buffer := CopyToBuffer(src, existingLength);
      data := buffer;
      Recount();
      assert Content() == c;
    }

    /** The symbol count loop of `assign_internal`: one step of the announced
        width at a time until the end of the content is reached or passed. */
    method Recount()
      requires data.Length >= 1 && data[data.Length - 1] == 0
      modifies this`length
      ensures Valid()
    {
      ghost var c := Content();
      length := 0;
      var i: nat := 0;
      while i < data.Length - 1
        invariant length + SymbolCount(c, i) == SymbolCount(c)
        decreases data.Length - 1 - i
      {
        length := length + 1;
        var w := GetByteWidth(i);
        i := i + w.value;
      }
    }

    /** The empty string. */
    constructor ()
      ensures Valid() && fresh(data) && Content() == []
    {
      data := new byte[1];
      length := 0;
      new;
      AssignInternal([], Some(0));
    }

    /** A string built from a C string: the bytes before its first zero. */
    constructor FromCString(s: seq<byte>)
      requires 0 in s
      ensures Valid() && fresh(data) && Content() == s[..CStrLen(s)]
    {
      data := new byte[1];
      length := 0;
      new;
      AssignInternal(s, None);
    }

    /** A string built from `n` bytes of `s`; a zero last byte is taken as the
        terminator. */
    constructor FromBytes(s: seq<byte>, n: nat)
      requires n <= |s|
      ensures Valid() && fresh(data)
      ensures n > 0 && s[n - 1] == 0 ==> Content() == s[..n - 1]
      ensures !(n > 0 && s[n - 1] == 0) ==> Content() == s[..n]
    {
      data := new byte[1];
      length := 0;
      new;
      AssignInternal(s, Some(n));
    }

    /** The copy constructor. */
    constructor Copy(other: Utf8String)
      requires other.Valid()
      ensures Valid() && fresh(data) && Content() == other.Content()
    {
      data := new byte[1];
      length := 0;
      new;
      AssignInternal(other.data[..], Some(other.data.Length));
    }

    /** `assign(other)` and `operator=`. */
    method Assign(other: Utf8String)
      requires other.Valid()
      modifies this
      ensures Valid() && fresh(data) && Content() == old(other.Content())
    {
      AssignInternal(other.data[..], Some(other.data.Length));
    }

    /** `concatenate`, also `+=` and `<<` of a string: this content followed by
        the other's, in a buffer of `(len - 1) + other.len` bytes. */
    method Concatenate(other: Utf8String)
      requires Valid() && other.Valid()
      modifies this
      ensures Valid() && fresh(data)
      ensures Content() == old(Content()) + old(other.Content())
      ensures data.Length == old(data.Length) - 1 + old(other.data.Length)
      ensures Aligned(old(Content())) ==> length == old(length) + old(other.length)
    {
      ghost var a, b := Content(), other.Content();
      var newData := ConcatBuffer(data, other.data);
      AssignInternal(newData[..], Some(newData.Length));
      if Aligned(a) {
        SymbolsConcat(a, b);
      }
    }

    /** `repeat(count)`, also `*=`: `count` copies of the content, in a buffer of
        `c_len * count + 1` bytes. */
    method Repeat(count: nat)
      requires Valid()
      modifies this
      ensures Valid() && fresh(data)
      ensures Content() == RepeatBytes(old(Content()), count)
      ensures data.Length == |old(Content())| * count + 1
      ensures Aligned(old(Content())) ==> length == count * old(length)
    {
      ghost var c := Content();
      var newData := RepeatBuffer(data, count);
      AssignInternal(newData[..], Some(newData.Length));
      if Aligned(c) {
        RepeatSymbols(c, count);
      }
    }

    //-------------------------------------------------------------------------
    // Index translation and symbol access
    //-------------------------------------------------------------------------

    /** `get_byte_index_for_symbol_index`: the byte offset at which symbol `k`
        starts, found by walking the widths from the front. */
    method GetByteIndexForSymbolIndex(k: nat) returns (r: Result<nat>)
      requires Valid()
      ensures k >= length ==> r == Failure(IndexOutOfBoundsError)
      ensures k < length ==> r == Success(Offset(Content(), k))
      ensures k < length ==> r.value < |Content()|
    {
      var check := CheckSymbolIndex(k);
      if check.Failure? {
        return Failure(check.error);
      }
      ghost var c := Content();
      var current: nat := 0;
      var i: nat := 0;
      // The walk stops at symbol `k`, which exists, so the source's fall-through
      // `npos` is never reached.
      while current < k
        invariant current <= k && i == Offset(c, current)
      {
        assert Offset(c, current + 1) == i + Width(c[i]) by { SymbolAt(c, current); }
        current := current + 1;
        var w := GetByteWidth(i);
        i := i + w.value;
      }
      assert i < |c| by { SymbolAt(c, k); }
      return Success(i);
    }

    /** `get_symbol_index_for_byte_index`: the symbol whose run holds byte `b`;
        `None` (`npos`) for the terminator's index when no run reaches it. */
    method GetSymbolIndexForByteIndex(b: nat) returns (r: Result<Option<nat>>)
      requires Valid()
      ensures b >= data.Length ==> r == Failure(IndexOutOfBoundsError)
      ensures b < data.Length ==> r.Success?
      ensures r.Success? && r.value.Some? ==>
                var k := r.value.value;
                k < length && Offset(Content(), k) <= b < Offset(Content(), k + 1)
      ensures r.Success? && r.value.None? ==> b == |Content()|
      ensures b < |Content()| ==> r.Success? && r.value.Some?
      ensures b < data.Length ==> (r.value.None? <==> Aligned(Content()) && b == |Content()|)
    {
      var check := CheckByteIndex(b);
      if check.Failure? {
        return Failure(check.error);
      }
      ghost var c := Content();
      var current: nat := 0;
      var i: nat := 0;
      while i < data.Length - 1
        invariant current <= length && i == Offset(c, current) && i <= b
        decreases data.Length - 1 - i
      {
        assert current < length by { OffsetCount(c, current); }
        assert Offset(c, current + 1) == i + Width(c[i]) by { SymbolAt(c, current); }
        var w := GetByteWidth(i);
        var next := i + w.value;
        if b < next {
          if Aligned(c) {
            AlignedSymbol(c, current);
          }
          return Success(Some(current));
        }
        current := current + 1;
        i := next;
      }
      OffsetAtEnd(c, current, 0);
      return Success(None);
    }

    /** `get_symbol_width`: the width the lead byte of symbol `k` announces;
        for aligned text that is the length of the symbol in bytes. */
    method GetSymbolWidth(k: nat) returns (r: Result<nat>)
      requires Valid()
      ensures k >= length ==> r == Failure(IndexOutOfBoundsError)
      ensures k < length ==> Offset(Content(), k) < |Content()|
                             && r == Success(Width(Content()[Offset(Content(), k)]))
      ensures k < length && Aligned(Content()) ==> r == Success(|Syms()[k]|)
    {
      var check := CheckSymbolIndex(k);
      if check.Failure? {
        return Failure(check.error);
      }
      var b := GetByteIndexForSymbolIndex(k);
      if Aligned(Content()) {
        AlignedSymbol(Content(), k);
      }
      r := GetByteWidth(b.value);
    }

    /** `get_symbol`: the string built from the run of symbol `k` with the
        `(const char*, size)` constructor, given as its content; for zero-free
        content that is the run itself. */
    method GetSymbol(k: nat) returns (r: Result<seq<byte>>)
      requires Valid() && Aligned(Content())
      ensures k >= length ==> r == Failure(IndexOutOfBoundsError)
      ensures k < length ==> r == Success(SymbolText(Syms()[k]))
      ensures k < length && NoZero(Content()) ==> r == Success(Syms()[k])
    {
      var check := CheckSymbolIndex(k);
      if check.Failure? {
        return Failure(check.error);
      }
      var bytes := SymbolBytes(k);
      if NoZero(Content()) {
        WellFormedSymbols(Content());
      }
      r := Success(SymbolText(bytes));
    }

    /** The run of symbol `k`, which exists: its first byte index and the
        width that byte announces. */
    method SymbolBytes(k: nat) returns (r: seq<byte>)
      requires Valid() && Aligned(Content()) && k < length
      ensures r == Syms()[k]
    {
      var b := GetByteIndexForSymbolIndex(k);
      var o := b.value;
      var w := GetByteWidth(o);
      ghost var c := Content();
      AlignedSymbol(c, k);
      var n := w.value;
      assert data[o..o + n] == c[o..o + n];
      r := data[o..o + n];
    }

    /** `get_symbol_value`: the bytes of symbol `k` read little-endian. */
    method GetSymbolValue(k: nat) returns (r: Result<nat>)
      requires Valid() && Aligned(Content())
      ensures k >= length ==> r == Failure(IndexOutOfBoundsError)
      ensures k < length ==> r == Success(SymbolValue(Syms()[k]))
    {
      var check := CheckSymbolIndex(k);
      if check.Failure? {
        return Failure(check.error);
      }
      var bytes := SymbolBytes(k);
      r := Success(SymbolValue(bytes));
    }

    /** `get_code_point`: the scalar value of symbol `k`. */
    method GetCodePoint(k: nat) returns (r: Result<nat>)
      requires Valid() && Aligned(Content())
      ensures k >= length ==> r == Failure(IndexOutOfBoundsError)
      ensures k < length ==> IsRun(Syms()[k]) && r == Success(CodePoint(Syms()[k]))
    {
      var check := CheckSymbolIndex(k);
      if check.Failure? {
        return Failure(check.error);
      }
      var bytes := SymbolBytes(k);
      AlignedRuns(Content());
      r := Success(CodePoint(bytes));
    }

    /** `get_length`. */
    function GetLength(): (n: nat)
      reads this, data
      requires Valid()
      ensures n == |Syms()|
    {
      length
    }

    /** `is_empty`: the buffer holds the terminator only. */
    function IsEmpty(): (r: bool)
      reads this, data
      requires Valid()
      ensures r <==> Content() == []
      ensures r <==> length == 0
    {
      data.Length <= 1
    }

    /** `operator==`: `strcmp` on the two buffers. */
    function Equals(other: Utf8String): (r: bool)
      reads this, data, other, other.data
      ensures Valid() && other.Valid() && NoZero(Content()) && NoZero(other.Content())
              ==> (r <==> Content() == other.Content())
    {
      CStrTerminated(data[..]);
      CStrTerminated(other.data[..]);
      TextEquals(data[..], other.data[..])
    }

    /** `operator!=`. */
    function NotEquals(other: Utf8String): (r: bool)
      reads this, data, other, other.data
      ensures Valid() && other.Valid() && NoZero(Content()) && NoZero(other.Content())
              ==> (r <==> Content() != other.Content())
    {
      !Equals(other)
    }

    /** `substring.get_symbol(j) != get_symbol(k)` negated: `strcmp` on the
        buffers of the two symbol strings, over the `strcmp` views `S` of this
        string and `T` of `sub`. */
    method SameSymbol(k: nat, sub: Utf8String, j: nat, ghost S: seq<seq<byte>>, ghost T: seq<seq<byte>>)
      returns (r: bool)
      requires Valid() && Aligned(Content()) && k < length
      requires sub.Valid() && Aligned(sub.Content()) && j < sub.length
      requires S == SymbolKeys() && T == sub.SymbolKeys()
      ensures k < |S| && j < |T| && r == (S[k] == T[j])
    {
      var a := sub.GetSymbol(j);
      var b := GetSymbol(k);
      SymbolTextCStr(sub.Syms()[j]);
      SymbolTextCStr(Syms()[k]);
      return TextEquals(a.value + [0], b.value + [0]);
    }

    /** `substring.get_symbol_value(j) != get_symbol_value(k)` negated; for
        complete runs equal values mean equal symbols. */
    method SameSymbolValue(k: nat, sub: Utf8String, j: nat, ghost S: seq<seq<byte>>, ghost T: seq<seq<byte>>)
      returns (r: bool)
      requires Valid() && Aligned(Content()) && k < length
      requires sub.Valid() && Aligned(sub.Content()) && j < sub.length
      requires S == Syms() && T == sub.Syms()
      ensures k < |S| && j < |T| && r == (S[k] == T[j])
    {
      var a := sub.GetSymbolValue(j);
      var b := GetSymbolValue(k);
      if a.value == b.value {
        AlignedRuns(Content());
        AlignedRuns(sub.Content());
        SymbolValueInjective(S[k], T[j]);
      }
      return a.value == b.value;
    }

    /** The code points `operator<` compares at symbol `k` of both strings. */
    method CodePointPair(other: Utf8String, k: nat, ghost A: seq<nat>, ghost B: seq<nat>)
      returns (a: nat, b: nat)
      requires Valid() && Aligned(Content()) && k < length
      requires other.Valid() && Aligned(other.Content()) && k < other.length
      requires AllRuns(Syms()) && A == CodePoints(Syms())
      requires AllRuns(other.Syms()) && B == CodePoints(other.Syms())
      ensures k < |A| && k < |B| && a == A[k] && b == B[k]
    {
      var x := GetCodePoint(k);
      var y := other.GetCodePoint(k);
      return x.value, y.value;
    }

    /** The loop of `operator<` over the code-point views `A` and `B`: the
        first differing pair decides, otherwise the shorter string is less. */
    method CompareCodePoints(other: Utf8String, ghost A: seq<nat>, ghost B: seq<nat>) returns (r: bool)
      requires Valid() && Aligned(Content())
      requires other.Valid() && Aligned(other.Content())
      requires AllRuns(Syms()) && A == CodePoints(Syms())
      requires AllRuns(other.Syms()) && B == CodePoints(other.Syms())
      ensures r == SymbolSeq.LexLess(A, B)
    {
      assert |A| == length && |B| == other.length;
      var n: nat := Min(length, other.length);
      var i: nat := 0;
      while i < n
        invariant i <= n && A[..i] == B[..i]
      {
        var a, b := CodePointPair(other, i, A, B);
        if a != b {
          SymbolSeq.LexLessAt(A, B, i);
          return a < b;
        }
        SymbolSeq.PrefixExtend(A, B, i);
        i := i + 1;
      }
      SymbolSeq.LexLessAt(A, B, i);
      return length < other.length;
    }

    /** `operator<`: the code-point order of the two contents. */
    method Less(other: Utf8String) returns (r: bool)
      requires Valid() && Aligned(Content())
      requires other.Valid() && Aligned(other.Content())
      ensures r == TextLess(Content(), other.Content())
    {
      AlignedRuns(Content());
      AlignedRuns(other.Content());
      r := CompareCodePoints(other, CodePoints(Syms()), CodePoints(other.Syms()));
    }

    /** `starts_with`: the symbols of `sub` begin this string, as `strcmp`
        compares symbols; for well-formed text, symbol for symbol. */
    method StartsWith(sub: Utf8String) returns (r: bool)
      requires Valid() && Aligned(Content())
      requires sub.Valid() && Aligned(sub.Content())
      ensures r == SymbolSeq.IsPrefix(sub.SymbolKeys(), SymbolKeys())
      ensures WellFormed(Content()) && WellFormed(sub.Content())
              ==> r == SymbolSeq.IsPrefix(sub.Syms(), Syms())
    {
      KeysWhenWellFormed(Content());
      KeysWhenWellFormed(sub.Content());
      if sub.length > length {
        return false;
      }
      ghost var S, T := SymbolKeys(), sub.SymbolKeys();
      assert |S| == length && |T| == sub.length;
      r := MatchSymbolsAt(sub, 0, S, T);
    }

    /** `ends_with`: the symbols of `sub` end this string, compared from the
        back as `strcmp` compares symbols; for well-formed text, symbol for
        symbol. */
    method EndsWith(sub: Utf8String) returns (r: bool)
      requires Valid() && Aligned(Content())
      requires sub.Valid() && Aligned(sub.Content())
      ensures r == SymbolSeq.IsSuffix(sub.SymbolKeys(), SymbolKeys())
      ensures WellFormed(Content()) && WellFormed(sub.Content())
              ==> r == SymbolSeq.IsSuffix(sub.Syms(), Syms())
    {
      KeysWhenWellFormed(Content());
      KeysWhenWellFormed(sub.Content());
      if sub.length > length {
        return false;
      }
      ghost var S, T := SymbolKeys(), sub.SymbolKeys();
      assert |S| == length && |T| == sub.length;
      var diff: nat := length - sub.length;
      SymbolSeq.SuffixIsMatch(S, T);
      assert SymbolSeq.IsSuffix(T, S) == SymbolSeq.MatchAt(S, T, diff);
      r := MatchBackwardsAt(sub, diff, S, T);
    }

    /** The loop of `ends_with`: symbols of `sub` against those from symbol
        `diff` on, last first. */
    method MatchBackwardsAt(sub: Utf8String, diff: nat, ghost S: seq<seq<byte>>, ghost T: seq<seq<byte>>)
      returns (r: bool)
      requires Valid() && Aligned(Content())
      requires sub.Valid() && Aligned(sub.Content())
      requires S == SymbolKeys() && T == sub.SymbolKeys() && diff + |T| <= |S|
      ensures r == SymbolSeq.MatchAt(S, T, diff)
    {
      var m := sub.length;
      assert |S| == length && |T| == m;
      var i: nat := m;
      while i > 0
        invariant i <= m && SymbolSeq.MatchFrom(S, T, diff, i)
      {
        var j: nat := i - 1;
        var k: nat := diff + j;
        var same := SameSymbol(k, sub, j, S, T);
        if !same {
          SymbolSeq.MismatchAt(S, T, diff, j, k);
          return false;
        }
        SymbolSeq.MatchFromStep(S, T, diff, j, k);
        i := j;
      }
      SymbolSeq.MatchFromAll(S, T, diff);
      return true;
    }

    /** The inner loop of `find_first`: symbol values of `sub` against those
        from symbol `i` on. */
    method MatchValuesAt(sub: Utf8String, i: nat, ghost S: seq<seq<byte>>, ghost T: seq<seq<byte>>)
      returns (r: bool)
      requires Valid() && Aligned(Content())
      requires sub.Valid() && Aligned(sub.Content())
      requires S == Syms() && T == sub.Syms() && i + |T| <= |S|
      ensures r == SymbolSeq.MatchAt(S, T, i)
    {
      var m := sub.length;
      assert |S| == length && |T| == m;
      var j: nat := 0;
      while j < m
        invariant j <= m && SymbolSeq.MatchUpTo(S, T, i, j)
      {
        var k: nat := i + j;
        var same := SameSymbolValue(k, sub, j, S, T);
        if !same {
          SymbolSeq.MismatchAt(S, T, i, j, k);
          return false;
        }
        SymbolSeq.MatchUpToStep(S, T, i, j);
        j := j + 1;
      }
      SymbolSeq.MatchUpToAll(S, T, i);
      return true;
    }

    /** The loop of `starts_with` (from symbol 0) and the inner loop of
        `find_last`: symbols of `sub` against those from symbol `i` on, first
        to last. */
    method MatchSymbolsAt(sub: Utf8String, i: nat, ghost S: seq<seq<byte>>, ghost T: seq<seq<byte>>)
      returns (r: bool)
      requires Valid() && Aligned(Content())
      requires sub.Valid() && Aligned(sub.Content())
      requires S == SymbolKeys() && T == sub.SymbolKeys() && i + |T| <= |S|
      ensures r == SymbolSeq.MatchAt(S, T, i)
    {
      var m := sub.length;
      assert |S| == length && |T| == m;
      var j: nat := 0;
      while j < m
        invariant j <= m && SymbolSeq.MatchUpTo(S, T, i, j)
      {
        var k: nat := i + j;
        var same := SameSymbol(k, sub, j, S, T);
        if !same {
          SymbolSeq.MismatchAt(S, T, i, j, k);
          return false;
        }
        SymbolSeq.MatchUpToStep(S, T, i, j);
        j := j + 1;
      }
      SymbolSeq.MatchUpToAll(S, T, i);
      return true;
    }

    /** `find_first`: the leftmost symbol index at which `sub` occurs, `None`
        for `npos`. The scan bound `m_length - (sub_len - 1)` wraps to
        `m_length + 1` for an empty `sub`, which is the same number. */
    method FindFirst(sub: Utf8String) returns (r: Option<nat>)
      requires Valid() && Aligned(Content())
      requires sub.Valid() && Aligned(sub.Content())
      ensures r == SymbolSeq.Find(Syms(), sub.Syms())
    {
      if sub.length > length {
        return None;
      }
      ghost var S, T := Syms(), sub.Syms();
      assert |S| == length && |T| == sub.length;
      var i: nat := 0;
      while i < length - sub.length + 1
        invariant i <= length - sub.length + 1
        invariant SymbolSeq.NoMatchBelow(S, T, i)
      {
        var m := MatchValuesAt(sub, i, S, T);
        if m {
          SymbolSeq.FindIs(S, T, i);
          return Some(i);
        }
        SymbolSeq.NoMatchBelowStep(S, T, i);
        i := i + 1;
      }
      SymbolSeq.FindNone(S, T, i);
      return None;
    }

    /** `find_last`: the rightmost symbol index at which `sub` occurs, symbols
        compared as `strcmp` compares them; for well-formed text, the
        rightmost occurrence of its symbols. */
    method FindLast(sub: Utf8String) returns (r: Option<nat>)
      requires Valid() && Aligned(Content())
      requires sub.Valid() && Aligned(sub.Content())
      ensures r == SymbolSeq.FindLast(SymbolKeys(), sub.SymbolKeys())
      ensures WellFormed(Content()) && WellFormed(sub.Content())
              ==> r == SymbolSeq.FindLast(Syms(), sub.Syms())
    {
      KeysWhenWellFormed(Content());
      KeysWhenWellFormed(sub.Content());
      r := ScanDown(sub, SymbolKeys(), sub.SymbolKeys());
    }

    /** The loop of `find_last` over the `strcmp` views `S` and `T`: it runs
        down from `m_length - sub_len` until the index wraps past zero. */
    method ScanDown(sub: Utf8String, ghost S: seq<seq<byte>>, ghost T: seq<seq<byte>>)
      returns (r: Option<nat>)
      requires Valid() && Aligned(Content())
      requires sub.Valid() && Aligned(sub.Content())
      requires S == SymbolKeys() && T == sub.SymbolKeys()
      ensures r == SymbolSeq.FindLast(S, T)
    {
      if sub.length > length {
        return None;
      }
      assert |S| == length && |T| == sub.length;
      var i: int := length - sub.length;
      SymbolSeq.NoMatchPastEnd(S, T);
      while i >= 0
        invariant i <= length - sub.length
        invariant SymbolSeq.NoMatchAbove(S, T, i)
      {
        var m := MatchSymbolsAt(sub, i, S, T);
        if m {
          SymbolSeq.FindLastIs(S, T, i);
          return Some(i);
        }
        SymbolSeq.NoMatchAboveStep(S, T, i);
        i := i - 1;
      }
      SymbolSeq.FindLastNone(S, T);
      return None;
    }

    //-------------------------------------------------------------------------
    // Substring and split
    //-------------------------------------------------------------------------

    /** The loop of `substring`: the bytes of the symbols `[start, stop)`
        appended one by one. */
    method CollectBytes(start: nat, stop: nat, ghost S: seq<seq<byte>>) returns (acc: seq<byte>)
      requires Valid() && WellFormed(Content()) && S == Syms()
      requires start <= stop <= |S|
      ensures WellFormed(acc) && Symbols(acc) == S[start..stop]
    {
      acc := [];
      var i: nat := start;
      while i < stop
        invariant start <= i <= stop && Collected(S, start, i, acc)
      {
        acc := AppendSymbolTo(acc, i, S);
        SymbolSeq.SliceSnoc(S, start, i);
        i := i + 1;
      }
    }

    /** The symbols `[start, stop)` as a new string. */
    method CollectSymbols(start: nat, stop: nat, ghost S: seq<seq<byte>>) returns (result: Utf8String)
      requires Valid() && WellFormed(Content()) && S == Syms()
      requires start <= stop <= length
      ensures fresh(result) && result.Valid() && WellFormed(result.Content())
      ensures stop <= |S| && result.Syms() == S[start..stop]
    {
      assert |S| == length;
      var acc := CollectBytes(start, stop, S);
      assert acc == [] || acc[|acc| - 1] != 0;
      result := new Utf8String.FromBytes(acc, |acc|);
      assert result.Content() == acc[..|acc|] == acc;
    }

    /** `substring(start, count)`: the symbols from `start` on, at most
        `count` of them. The second argument is a count, not an end index;
        `start == length` gives the empty string and a larger `start` throws. */
    method Substring(start: nat, count: nat) returns (r: Result<Utf8String>)
      requires Valid() && WellFormed(Content())
      ensures start > length ==> r == Failure(IndexOutOfBoundsError)
      ensures start <= length ==> r.Success? && fresh(r.value) && r.value.Valid()
      ensures start <= length ==> WellFormed(r.value.Content())
      ensures start <= length ==> r.value.Syms() == Syms()[start..Min(length, start + count)]
    {
      if start == length {
        var empty := new Utf8String();
        return Success(empty);
      }
      var checked := CheckSymbolIndex(start);
      if checked.Failure? {
        return Failure(checked.error);
      }
      var result := CollectSymbols(start, Min(length, start + count), Syms());
      return Success(result);
    }

    /** `substring(i, delimiter.get_length()) == delimiter` in `split`. */
    method DelimiterAt(i: nat, delim: Utf8String, ghost S: seq<seq<byte>>, ghost D: seq<seq<byte>>)
      returns (b: bool)
      requires Valid() && WellFormed(Content()) && S == Syms() && i <= length
      requires delim.Valid() && WellFormed(delim.Content()) && D == delim.Syms()
      ensures b == SymbolSeq.MatchAt(S, D, i)
    {
      var n := delim.GetLength();
      var piece := Substring(i, n);
      var p := piece.value;
      assert length == |S| && n == |D|;
      DelimiterMatch(S, D, delim.Content(), p.Content(), i, Min(length, i + n));
      b := p.Equals(delim);
    }

    /** The loop of `split` over the symbol views `S` and `D`: `element`
        gathers symbols until the delimiter is seen, then joins `elements`.
        The local strings are held as their contents, which is what `+=` and
        `push_back` (a copy) make of them. */
    method SplitPieces(delim: Utf8String, ghost S: seq<seq<byte>>, ghost D: seq<seq<byte>>)
      returns (elements: seq<seq<byte>>)
      requires Valid() && WellFormed(Content()) && S == Syms()
      requires delim.Valid() && WellFormed(delim.Content()) && D == delim.Syms() && |D| > 0
      ensures elements == FlattenEach(SymbolSeq.Split(S, D))
    {
      var n := GetLength();
      elements := [];
      ghost var done: seq<seq<seq<byte>>> := [];
      var element: seq<byte> := [];
      ghost var cur: seq<seq<byte>> := [];
      SymbolSeq.SplitStart(S, D);
      var i: nat := 0;
      while i < n
        invariant i <= n == |S|
        invariant Splitting(S, D, i, element, cur, done, elements)
        decreases n - i
      {
        i, element, cur, done, elements := SplitRound(delim, S, D, i, element, cur, done, elements);
      }
      SymbolSeq.SplitEnd(S, D, i, cur, done);
      FlattenSymbols(element);
      FlattenEachSnoc(done, cur);
      elements := elements + [element];
    }

    /** One round of the loop of `split` at symbol `i`: at the delimiter the
        element is pushed and cleared and `i` skips the delimiter; otherwise
        the element grows by symbol `i`. */
    method SplitRound(delim: Utf8String, ghost S: seq<seq<byte>>, ghost D: seq<seq<byte>>,
                      i: nat, element: seq<byte>, ghost cur: seq<seq<byte>>,
                      ghost done: seq<seq<seq<byte>>>, elements: seq<seq<byte>>)
      returns (i': nat, element': seq<byte>, ghost cur': seq<seq<byte>>,
               ghost done': seq<seq<seq<byte>>>, elements': seq<seq<byte>>)
      requires Valid() && WellFormed(Content()) && S == Syms() && i < |S|
      requires delim.Valid() && WellFormed(delim.Content()) && D == delim.Syms() && |D| > 0
      requires Splitting(S, D, i, element, cur, done, elements)
      ensures i < i' <= |S|
      ensures Splitting(S, D, i', element', cur', done', elements')
    {
      var m := delim.GetLength();
      var at := DelimiterAt(i, delim, S, D);
      if at {
        SplittingPush(S, D, i, i + m, element, cur, done, elements);
        i', element', cur', done', elements' := i + m, [], [], done + [cur], elements + [element];
      } else {
        element' := AppendSymbolTo(element, i, S);
        SplittingGrow(S, D, i, element, element', cur, done, elements);
        i', cur', done', elements' := i + 1, cur + [S[i]], done, elements;
      }
    }

    /** `element += get_symbol(i)`: the text grows by symbol `i`. */
    method AppendSymbolTo(element: seq<byte>, i: nat, ghost S: seq<seq<byte>>) returns (e: seq<byte>)
      requires Valid() && WellFormed(Content()) && S == Syms() && i < |S|
      requires WellFormed(element)
      ensures WellFormed(e) && Symbols(e) == Symbols(element) + [S[i]]
    {
      var symbol := GetSymbol(i);
      AppendSymbol(Content(), i, element);
      e := element + symbol.value;
    }

    /** `split(delimiter)`: the texts between left-to-right, non-overlapping
        occurrences of the delimiter, the trailing one always included; an
        empty delimiter is a `ValueError`. */
    method Split(delim: Utf8String) returns (r: Result<seq<seq<byte>>>)
      requires Valid() && WellFormed(Content())
      requires delim.Valid() && WellFormed(delim.Content())
      ensures delim.length == 0 ==> r == Failure(ValueError)
      ensures delim.length > 0 ==> r == Success(FlattenEach(SymbolSeq.Split(Syms(), delim.Syms())))
    {
      if delim.IsEmpty() {
        return Failure(ValueError);
      }
      var elements := SplitPieces(delim, Syms(), delim.Syms());
      return Success(elements);
    }

    //-------------------------------------------------------------------------
    // Removing duplicates
    //-------------------------------------------------------------------------

    /** The inner loop of `remove_duplicates`: while this string starts with
        `sub`, cut one copy off the front. */
    method DropLeadingCopies(sub: Utf8String, ghost I: seq<seq<byte>>, ghost T: seq<seq<byte>>)
      returns (rest: Utf8String)
      requires Valid() && WellFormed(Content()) && I == Syms()
      requires sub.Valid() && WellFormed(sub.Content()) && T == sub.Syms() && |T| > 0
      ensures rest == this || fresh(rest)
      ensures rest.Valid() && WellFormed(rest.Content())
      ensures rest.Syms() == SymbolSeq.DropCopies(I, T)
    {
      var m := sub.GetLength();
      rest := this;
      ghost var R := I;
      var more := rest.StartsWith(sub);
      while more
        invariant rest == this || fresh(rest)
        invariant rest.Valid() && WellFormed(rest.Content()) && rest.Syms() == R
        invariant m == |T| && more == SymbolSeq.IsPrefix(T, R)
        invariant SymbolSeq.DropCopies(R, T) == SymbolSeq.DropCopies(I, T)
        decreases |R|
      {
        var n := rest.GetLength();
        SymbolSeq.DropOneCopy(R, T, n);
        var r := rest.Substring(m, n);
        assert Min(n, m + n) == n;
        rest := r.value;
        R := R[m..n];
        more := rest.StartsWith(sub);
      }
    }

    /** One round of the outer loop of `remove_duplicates` on this string
        (the input), with the first occurrence of `sub` at symbol `p`: the text
        up to and including it, and the rest after the copies that follow. */
    method CutAfterMatch(sub: Utf8String, p: nat, ghost I: seq<seq<byte>>, ghost T: seq<seq<byte>>)
      returns (head: seq<byte>, rest: Utf8String)
      requires Valid() && WellFormed(Content()) && I == Syms()
      requires sub.Valid() && WellFormed(sub.Content()) && T == sub.Syms() && |T| > 0
      requires SymbolSeq.Find(I, T) == Some(p)
      ensures fresh(rest) && rest.Valid() && WellFormed(rest.Content())
      ensures WellFormed(head) && |rest.Syms()| < |I|
      ensures Symbols(head) + SymbolSeq.RemoveDuplicates(rest.Syms(), T)
           == SymbolSeq.RemoveDuplicates(I, T)
    {
      var n, m := GetLength(), sub.GetLength();
      var cut := p + m;
      SymbolSeq.RemoveDuplicatesStep(I, T, p, cut, n);
      var h := SubstringOf(0, cut, I);
      assert Min(n, 0 + cut) == cut;
      head := h.Content();
      assert Symbols(head) == I[0..cut];
      var t := SubstringOf(cut, n, I);
      assert Min(n, cut + n) == n;
      rest := t.DropLeadingCopies(sub, I[cut..n], T);
      assert rest.Syms() == SymbolSeq.DropCopies(I[cut..n], T);
    }

    /** `substring` from a start within range, stated over the symbols `S`:
        at most `count` symbols, clamped at the end. */
    method SubstringOf(start: nat, count: nat, ghost S: seq<seq<byte>>) returns (r: Utf8String)
      requires Valid() && WellFormed(Content()) && S == Syms()
      requires start <= |S|
      ensures fresh(r) && r.Valid() && WellFormed(r.Content())
      ensures r.Syms() == Symbols(r.Content()) == S[start..Min(|S|, start + count)]
    {
      var s := Substring(start, count);
      r := s.value;
    }

    /** The outer loop of `remove_duplicates`, with `output` held as its
        content: whatever `input` still holds is appended at the end. */
    method Collapsed(sub: Utf8String, ghost S: seq<seq<byte>>, ghost T: seq<seq<byte>>)
      returns (output: seq<byte>)
      requires Valid() && WellFormed(Content()) && S == Syms()
      requires sub.Valid() && WellFormed(sub.Content()) && T == sub.Syms() && |T| > 0
      ensures WellFormed(output) && Symbols(output) == SymbolSeq.RemoveDuplicates(S, T)
    {
      var input := new Utf8String.Copy(this);
      output := [];
      NothingYet(S, T);
      var i := input.FindFirst(sub);
      while i.Some?
        invariant fresh(input) && input.Valid() && WellFormed(input.Content())
        invariant i == SymbolSeq.Find(input.Syms(), T)
        invariant WellFormed(output)
        invariant Symbols(output) + SymbolSeq.RemoveDuplicates(input.Syms(), T)
               == SymbolSeq.RemoveDuplicates(S, T)
        decreases |input.Syms()|
      {
        ghost var before := input.Syms();
        var head, rest := input.CutAfterMatch(sub, i.value, before, T);
        ConcatAssoc(output, head, SymbolSeq.RemoveDuplicates(rest.Syms(), T));
        output := output + head;
        input := rest;
        i := input.FindFirst(sub);
      }
      SymbolSeq.RemoveDuplicatesNoMatch(input.Syms(), T);
      WellFormedConcat(output, input.Content());
      FlattenSymbols(input.Content());
      output := output + input.Content();
    }

    /** `remove_duplicates(sub)`: every run of back-to-back copies of `sub`
        collapses to one copy; nothing happens for an empty `sub`. */
    method RemoveDuplicates(sub: Utf8String)
      requires Valid() && WellFormed(Content())
      requires sub.Valid() && WellFormed(sub.Content())
      modifies this
      ensures Valid() && WellFormed(Content())
      ensures old(sub.length) == 0 ==> Content() == old(Content())
      ensures old(sub.length) > 0 ==>
                Syms() == SymbolSeq.RemoveDuplicates(old(Syms()), old(sub.Syms()))
    {
      if sub.IsEmpty() {
        return;
      }
      var output := Collapsed(sub, Syms(), sub.Syms());
      assert output == [] || output[|output| - 1] != 0;
      AssignInternal(output, Some(|output|));
      assert output[..|output|] == output;
    }

    //-------------------------------------------------------------------------
    // Digit predicates and the conversions they gate
    //-------------------------------------------------------------------------

    /** `is_uint`: every symbol value is a digit, and the string is not empty. */
    method IsUint() returns (r: bool)
      requires Valid() && Aligned(Content())
      ensures r == IsUintText(Syms())
    {
      ghost var S := Syms();
      var n := GetLength();
      var i: nat := 0;
      while i < n
        invariant i <= n == |S|
        invariant forall k :: 0 <= k < i ==> IsDigit(SymbolValue(S[k]))
      {
        var v := GetSymbolValue(i);
        if !IsDigit(v.value) {
          return false;
        }
        i := i + 1;
      }
      var empty := IsEmpty();
      return !empty;
    }

    /** `is_int`: every code point is a digit, except that the first symbol
        may be "-" instead, and the string is not empty. Comparing a symbol
        with "-" through `strcmp` is comparing its bytes, since a symbol that
        starts with 0x2D is one byte wide. */
    method IsInt() returns (r: bool)
      requires Valid() && Aligned(Content())
      ensures r == IsIntText(Syms())
    {
      ghost var S := Syms();
      AlignedRuns(Content());
      var n := GetLength();
      var i: nat := 0;
      while i < n
        invariant i <= n == |S| && AllRuns(S)
        invariant forall k :: 0 <= k < i ==> IntSymbolOk(S, k)
      {
        var cp := GetCodePoint(i);
        if i == 0 {
          var minus := SymbolIs(i, 0x2D, S);
          if !minus && !IsDigit(cp.value) {
            assert !IntSymbolOk(S, i);
            return false;
          }
        } else if !IsDigit(cp.value) {
          assert !IntSymbolOk(S, i);
          return false;
        }
        i := i + 1;
      }
      var empty := IsEmpty();
      return !empty;
    }

    /** `is_float`: every symbol value is a digit, except for a leading "-"
        and the first "."; a second "." fails, and so does the empty string. */
    method IsFloat() returns (r: bool)
      requires Valid() && Aligned(Content())
      ensures r == IsFloatText(Syms())
    {
      ghost var S := Syms();
      var n := GetLength();
      var pointFound := false;
      var i: nat := 0;
      while i < n
        invariant i <= n == |S|
        invariant FloatScanned(S, i, pointFound)
      {
        FloatScanStep(S, i, pointFound);
        var ok, found := FloatSymbolCheck(i, pointFound, S);
        if !ok {
          return false;
        }
        pointFound := found;
        i := i + 1;
      }
      var empty := IsEmpty();
      return !empty;
    }

    /** The test the `is_float` loop applies to symbol `i`: a digit passes, so
        does a leading "-" and the first "."; once it passes, `found` says
        whether a "." has been seen. */
    method FloatSymbolCheck(i: nat, pointFound: bool, ghost S: seq<seq<byte>>) returns (ok: bool, found: bool)
      requires Valid() && Aligned(Content()) && S == Syms() && i < |S|
      ensures ok == (FloatSymbolOk(S, i) && !(pointFound && S[i] == DOT))
      ensures ok ==> found == (pointFound || S[i] == DOT)
    {
      var v := GetSymbolValue(i);
      if IsDigit(v.value) {
        return true, pointFound;
      }
      if i == 0 {
        var minus := SymbolIs(i, 0x2D, S);
        if minus {
          return true, pointFound;
        }
      }
      var dot := SymbolIs(i, 0x2E, S);
      if dot && !pointFound {
        return true, true;
      }
      return false, pointFound;
    }

    /** `get_symbol(k) == lit` for a one-byte ASCII literal: `strcmp` on the
        two buffers, which for a complete run is comparing its bytes. */
    method SymbolIs(k: nat, lit: byte, ghost S: seq<seq<byte>>) returns (r: bool)
      requires Valid() && Aligned(Content()) && S == Syms() && k < |S|
      requires 0 < lit < 0x80
      ensures r == (S[k] == [lit])
    {
      var symbol := GetSymbol(k);
      AlignedRuns(Content());
      SymbolIsAscii(S[k], lit);
      return TextEquals(symbol.value + [0], [lit] + [0]);
    }

    /** `to_bool`: a `ConversionDataError` unless `is_int` holds; then true
        exactly when some symbol is not "0". */
    method ToBool() returns (r: Result<bool>)
      requires Valid() && Aligned(Content())
      ensures !IsIntText(Syms()) ==> r == Failure(ConversionDataError)
      ensures IsIntText(Syms()) ==> r == Success(BoolText(Syms()))
    {
      var valid := IsInt();
      if !valid {
        return Failure(ConversionDataError);
      }
      ghost var S := Syms();
      var n := GetLength();
      var i: nat := 0;
      while i < n
        invariant i <= n == |S|
        invariant forall k :: 0 <= k < i ==> S[k] == ZERO
      {
        var zero := SymbolIs(i, 0x30, S);
        if !zero {
          return Success(true);
        }
        i := i + 1;
      }
      return Success(false);
    }

    /** The check in front of `to_int32`, `to_int64` (`is_int`) and `to_uint32`,
        `to_uint64` (`is_uint`): a `ConversionDataError` when it fails, and
        otherwise the text that is handed on to `strtol`/`strtoul`. */
    method ToInteger(kind: IntegerKind) returns (r: Result<seq<byte>>)
      requires Valid() && Aligned(Content())
      ensures kind.Signed() ==> (r.Success? <==> IsIntText(Syms()))
      ensures !kind.Signed() ==> (r.Success? <==> IsUintText(Syms()))
      ensures r.Failure? ==> r.error == ConversionDataError
      ensures r.Success? ==> r.value == Content()
    {
      var valid;
      if kind.Signed() {
        valid := IsInt();
      } else {
        valid := IsUint();
      }
      if !valid {
        return Failure(ConversionDataError);
      }
      return Success(Content());
    }
  }

  /** The piece `p` that `substring(i, |D|)` cuts from symbols `S` equals the
      delimiter `d` (whose symbols are `D`) exactly when `D` occurs in `S` at `i`. */
  lemma DelimiterMatch(S: seq<seq<byte>>, D: seq<seq<byte>>, d: seq<byte>, p: seq<byte>, i: nat, stop: nat)
    requires WellFormed(d) && Symbols(d) == D
    requires i <= stop == Min(|S|, i + |D|)
    requires WellFormed(p) && Symbols(p) == S[i..stop]
    ensures (p == d) == SymbolSeq.MatchAt(S, D, i)
  {
    if SymbolSeq.MatchAt(S, D, i) {
      FlattenSymbols(p);
      FlattenSymbols(d);
    }
  }

  /** The state of the loop of `split` at symbol `i`: `element` is the
      well-formed text of the piece `cur` being gathered, `elements` the texts
      of the pieces `done`, and these with the rest of the walk make up the
      reference split. */
  ghost predicate Splitting(S: seq<seq<byte>>, D: seq<seq<byte>>, i: nat, element: seq<byte>,
                            cur: seq<seq<byte>>, done: seq<seq<seq<byte>>>, elements: seq<seq<byte>>)
  {
    WellFormed(element) && Symbols(element) == cur && elements == FlattenEach(done)
    && |D| > 0 && SymbolSeq.Split(S, D) == done + SymbolSeq.SplitFrom(S, D, i, cur)
  }

  /** At a delimiter the gathered piece is pushed and a new one begins after
      the delimiter. */
  lemma SplittingPush(S: seq<seq<byte>>, D: seq<seq<byte>>, i: nat, next: nat, element: seq<byte>,
                      cur: seq<seq<byte>>, done: seq<seq<seq<byte>>>, elements: seq<seq<byte>>)
    requires i < |S| && SymbolSeq.MatchAt(S, D, i) && next == i + |D|
    requires Splitting(S, D, i, element, cur, done, elements)
    ensures Splitting(S, D, next, [], [], done + [cur], elements + [element])
  {
    SymbolSeq.SplitStepMatch(S, D, i, next, cur, done);
    FlattenSymbols(element);
    FlattenEachSnoc(done, cur);
  }

  /** Away from a delimiter the gathered piece grows by symbol `i`. */
  lemma SplittingGrow(S: seq<seq<byte>>, D: seq<seq<byte>>, i: nat, element: seq<byte>, e: seq<byte>,
                      cur: seq<seq<byte>>, done: seq<seq<seq<byte>>>, elements: seq<seq<byte>>)
    requires i < |S| && !SymbolSeq.MatchAt(S, D, i)
    requires Splitting(S, D, i, element, cur, done, elements)
    requires WellFormed(e) && Symbols(e) == Symbols(element) + [S[i]]
    ensures Splitting(S, D, i + 1, e, cur + [S[i]], done, elements)
  {
    SymbolSeq.SplitStepOther(S, D, i, cur, done);
  }

  /** `acc` is well-formed content holding the symbols `S[start..i]`. */
  ghost predicate Collected(S: seq<seq<byte>>, start: nat, i: nat, acc: seq<byte>)
    requires start <= i <= |S|
  {
    WellFormed(acc) && Symbols(acc) == S[start..i]
  }

  /** Before the first round nothing has been output. */
  lemma NothingYet(S: seq<seq<byte>>, T: seq<seq<byte>>)
    requires |T| > 0
    ensures WellFormed([])
    ensures Symbols([]) + SymbolSeq.RemoveDuplicates(S, T) == SymbolSeq.RemoveDuplicates(S, T)
  {
    assert [] + SymbolSeq.RemoveDuplicates(S, T) == SymbolSeq.RemoveDuplicates(S, T);
  }

  /** Appending `head` to well-formed `output` before the text still to come. */
  lemma ConcatAssoc(output: seq<byte>, head: seq<byte>, later: seq<seq<byte>>)
    requires WellFormed(output) && WellFormed(head)
    ensures WellFormed(output + head)
    ensures Symbols(output + head) + later == Symbols(output) + (Symbols(head) + later)
  {
    WellFormedConcat(output, head);
  }

  //---------------------------------------------------------------------------
  // How the digit predicates relate
  //---------------------------------------------------------------------------

  /** What the `is_float` loop knows after the first `i` symbols: each passed
      its own test, no two were ".", and `pointFound` says whether one was. */
  predicate FloatScanned(s: seq<seq<byte>>, i: nat, pointFound: bool)
    requires i <= |s|
  {
    && (forall k :: 0 <= k < i ==> FloatSymbolOk(s, k))
    && (forall j, k :: 0 <= j < k < i ==> !(s[j] == DOT && s[k] == DOT))
    && (pointFound <==> exists k :: 0 <= k < i && s[k] == DOT)
  }

  /** One step of the `is_float` loop: symbol `i` either extends the scan or
      shows that the text is not a float. */
  lemma FloatScanStep(s: seq<seq<byte>>, i: nat, pointFound: bool)
    requires i < |s| && FloatScanned(s, i, pointFound)
    ensures FloatScanned(s, 0, false)
    ensures FloatSymbolOk(s, i) && !(pointFound && s[i] == DOT) ==>
      FloatScanned(s, i + 1, pointFound || s[i] == DOT)
    ensures !FloatSymbolOk(s, i) || (pointFound && s[i] == DOT) ==> !IsFloatText(s)
    ensures FloatScanned(s, |s|, pointFound) ==> (IsFloatText(s) <==> |s| > 0)
  {
    if pointFound && s[i] == DOT {
      var j :| 0 <= j < i && s[j] == DOT;
      assert s[j] == DOT && s[i] == DOT;
    }
  }

  /** A complete run whose value is a digit is that one byte. */
  lemma DigitRun(r: seq<byte>)
    requires IsRun(r) && IsDigit(SymbolValue(r))
    ensures |r| == 1 && CodePoint(r) == SymbolValue(r) == r[0]
  {
  }

  /** Every unsigned integer text is an integer text and a float text. */
  lemma {:induction false} UintIsIntAndFloat(s: seq<seq<byte>>)
    requires AllRuns(s) && IsUintText(s)
    ensures IsIntText(s) && IsFloatText(s)
  {
    forall k | 0 <= k < |s| ensures IntSymbolOk(s, k) && s[k] != DOT {
      DigitRun(s[k]);
    }
  }

  /** The string order is asymmetric. */
  lemma TextLessAsymmetric(a: seq<byte>, b: seq<byte>)
    requires Aligned(a) && Aligned(b) && TextLess(a, b)
    ensures !TextLess(b, a)
  {
    AlignedRuns(a);
    AlignedRuns(b);
    SymbolSeq.LexLessAsymmetric(CodePoints(Symbols(a)), CodePoints(Symbols(b)));
  }

  /** The string order is transitive, and what is less than something that
      is less than `c` is not `c`. */
  lemma TextLessTransitive(a: seq<byte>, b: seq<byte>, c: seq<byte>)
    requires Aligned(a) && Aligned(b) && Aligned(c)
    requires TextLess(a, b) && TextLess(b, c)
    ensures TextLess(a, c) && a != c
  {
    AlignedRuns(a);
    AlignedRuns(b);
    AlignedRuns(c);
    SymbolSeq.LexLessTransitive(CodePoints(Symbols(a)), CodePoints(Symbols(b)), CodePoints(Symbols(c)));
    if a == c {
      SymbolSeq.LexLessAsymmetric(CodePoints(Symbols(a)), CodePoints(Symbols(b)));
    }
  }

  /** `get_symbol` compares through `strcmp`, which stops at a zero byte, so
      two different symbols that agree up to an embedded zero compare equal:
      the text [0xE0, 0x00, x] starts with [0xE0, 0x00, y] for any y. */
  lemma ZeroInsideSymbol(x: byte, y: byte)
    requires x != y
    ensures Aligned([0xE0, 0x00, x]) && Aligned([0xE0, 0x00, y])
    ensures Symbols([0xE0, 0x00, x]) != Symbols([0xE0, 0x00, y])
    ensures SymbolSeq.IsPrefix(Keys(Symbols([0xE0, 0x00, y])), Keys(Symbols([0xE0, 0x00, x])))
  {
    ZeroSecondByte(x);
    ZeroSecondByte(y);
    assert Symbols([0xE0, 0x00, x])[0][2] != Symbols([0xE0, 0x00, y])[0][2];
    var k: seq<seq<byte>> := [[0xE0]];
    assert k[0..1] == k;
  }

  /** A three-byte lead followed by a zero is one symbol whose C string is the
      lead alone. */
  lemma ZeroSecondByte(x: byte)
    ensures Aligned([0xE0, 0x00, x])
    ensures Symbols([0xE0, 0x00, x]) == [[0xE0, 0x00, x]]
    ensures Keys(Symbols([0xE0, 0x00, x])) == [[0xE0]]
  {
    var a: seq<byte> := [0xE0, 0x00, x];
    assert Width(a[0]) == 3;
    assert Aligned(a, 3);
    assert Symbols(a, 3) == [];
    assert a[0..3] == a;
    assert Symbols(a) == [a];
    assert CStr(a) == [0xE0] by {
      assert a[1..][0] == 0;
    }
  }

  /** `is_int` decodes code points while `is_uint` and `is_float` read raw
      symbol values, so the overlong two-byte form of '0' passes the first
      only. */
  lemma OverlongZero()
    ensures AllRuns([[0xC0, 0xB0]])
    ensures IsIntText([[0xC0, 0xB0]])
    ensures !IsUintText([[0xC0, 0xB0]]) && !IsFloatText([[0xC0, 0xB0]])
  {
    var r: seq<byte> := [0xC0, 0xB0];
    assert CodePoint(r) == 0x30;
    assert r[1..][1..] == [];
    assert SymbolValue(r) == 0xB0C0;
    assert !IsDigit(SymbolValue([[0xC0, 0xB0]][0]));
    assert [[0xC0, 0xB0]][0] != DOT;
    assert !FloatSymbolOk([[0xC0, 0xB0]], 0);
  }

  /** A lone "-" is an integer text, and `to_bool` reads it, like "-0", as true. */
  lemma MinusIsTrue()
    ensures IsIntText([MINUS]) && BoolText([MINUS])
    ensures IsIntText([MINUS, ZERO]) && BoolText([MINUS, ZERO])
  {
    assert [MINUS][0] != ZERO;
    assert [MINUS, ZERO][0] != ZERO;
  }

  //---------------------------------------------------------------------------
  // New buffers
  //---------------------------------------------------------------------------

  /** The bytes `assign_internal` keeps before the terminator: those before
      the first zero for `npos`, otherwise the first `n` bytes less a zero
      last byte. */
  function AssignedContent(src: seq<byte>, existingLength: Option<nat>): (c: seq<byte>)
    requires existingLength.None? ==> 0 in src
    requires existingLength.Some? ==> existingLength.value <= |src|
    ensures c <= src
    ensures existingLength.None? ==> |c| < |src| && src[|c|] == 0 && NoZero(c)
    ensures existingLength.Some? ==>
              |c| == existingLength.value || (|c| + 1 == existingLength.value && src[|c|] == 0)
  {
    match existingLength
    case None => src[..CStrLen(src)]
    case Some(n) => if n > 0 && src[n - 1] == 0 then src[..n - 1] else src[..n]
  }

  /** The buffer `assign_internal` allocates and fills. */
  method CopyToBuffer(src: seq<byte>, existingLength: Option<nat>) returns (buffer: array<byte>)
    requires existingLength.None? ==> 0 in src
    requires existingLength.Some? ==> existingLength.value <= |src|
    ensures fresh(buffer) && buffer.Length >= 1 && buffer[buffer.Length - 1] == 0
    ensures existingLength.None? ==> buffer[..] == src[..CStrLen(src) + 1]
    ensures existingLength.Some? && existingLength.value > 0 && src[existingLength.value - 1] == 0
            ==> buffer[..] == src[..existingLength.value]
    ensures existingLength.Some? && !(existingLength.value > 0 && src[existingLength.value - 1] == 0)
            ==> buffer[..] == src[..existingLength.value] + [0]
    ensures buffer[..] == AssignedContent(src, existingLength) + [0]
  {
    var n: nat;
    var dataLength: nat;
    var terminated := true;
    if existingLength.None? {
      n := CStrLen(src) + 1;
      dataLength := n;
    } else if existingLength.value > 0 && src[existingLength.value - 1] == 0 {
      n := existingLength.value;
      dataLength := n;
    } else {
      terminated := false;
      n := existingLength.value;
      dataLength := n + 1;
    }
    buffer := new byte[dataLength];
    forall k | 0 <= k < n {
      buffer[k] := src[k];
    }
    if !terminated {
      buffer[dataLength - 1] := 0;
    }
  }

  /** The buffer `concatenate` fills: all but the terminator of `a`, then all of `b`. */
  method ConcatBuffer(a: array<byte>, b: array<byte>) returns (buffer: array<byte>)
    requires a.Length >= 1 && b.Length >= 1
    ensures fresh(buffer) && buffer[..] == a[..a.Length - 1] + b[..]
  {
    var newLength := (a.Length - 1) + b.Length;
    buffer := new byte[newLength];
    forall k | 0 <= k < a.Length - 1 {
      buffer[k] := a[k];
    }
    forall k | 0 <= k < b.Length {
      buffer[a.Length - 1 + k] := b[k];
    }
  }

  /** The buffer `repeat` fills: `count` copies of all but the terminator of
      `a`, then a terminator. */
  method RepeatBuffer(a: array<byte>, count: nat) returns (buffer: array<byte>)
    requires a.Length >= 1
    ensures fresh(buffer) && buffer[..] == RepeatBytes(a[..a.Length - 1], count) + [0]
  {
    ghost var c := a[..a.Length - 1];
    var cLength := a.Length - 1;
    var newLength := cLength * count + 1;
    buffer := new byte[newLength];
    var at: nat := 0;
    for i := 0 to count
      invariant at == cLength * i <= cLength * count
      invariant buffer[..at] == RepeatBytes(c, i)
    {
      MulStep(cLength, i, count);
      CopyBlock(buffer, at, a, cLength);
      at := at + cLength;
    }
    buffer[newLength - 1] := 0;
    assert buffer[..] == buffer[..at] + [0];
  }

  /** The `memcpy` of one copy: the first `n` bytes of `src` written to `dst`
      from index `at`, the bytes before `at` and after the block kept. */
  method CopyBlock(dst: array<byte>, at: nat, src: array<byte>, n: nat)
    requires dst != src && n <= src.Length && at + n <= dst.Length
    modifies dst
    ensures dst[..at + n] == old(dst[..at]) + src[..n]
    ensures dst[at + n..] == old(dst[at + n..])
  {
    forall k | 0 <= k < n {
      dst[at + k] := src[k];
    }
    assert dst[..at + n] == dst[..at] + dst[at..at + n];
  }

  /** The source's masks agree with the byte ranges of `Width`. */
  lemma MaskWidth(b: byte)
    ensures ((b as bv8) & 0x80 == 0) == (b < 0x80)
    ensures b >= 0x80 ==> (((b as bv8) & 0xE0 == 0xC0) == (0xC0 <= b < 0xE0))
    ensures b >= 0x80 && !(0xC0 <= b < 0xE0) ==> (((b as bv8) & 0xF0 == 0xE0) == (0xE0 <= b < 0xF0))
  {
  }

  /** The write offset of `repeat` after one more block stays inside the
      `count` blocks of the new buffer. */
  lemma MulStep(a: nat, i: nat, n: nat)
    requires i < n
    ensures a * i + a <= a * n
  {
    assert a * (i + 1) <= a * n;
  }
}
