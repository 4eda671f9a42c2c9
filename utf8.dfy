/** The byte layer of the UTF-8 string: leading-byte widths, the symbol count
    the string keeps, the byte runs ("symbols") the width steps cut the content
    into, symbol/byte offset translation and code-point decoding. Content is the
    stored bytes without the zero terminator. */
module Utf8 {
  import opened Base

  /** One octet of the buffer. */
  type byte = x: int | 0 <= x < 256

  /** Number of bytes in the UTF-8 sequence a leading byte announces, after
      the table of section 3 of RFC 3629: 0xxxxxxx is 1, 110xxxxx is 2,
      1110xxxx is 3, and everything else is 4 (11110xxx, but also the stray
      continuation bytes 10xxxxxx and the bytes 11111xxx the table forbids,
      since only the leading byte is looked at). */
  function Width(b: byte): (w: nat)
    ensures 1 <= w <= 4
  {
    if b < 0x80 then 1
    else if 0xC0 <= b < 0xE0 then 2
    else if 0xE0 <= b < 0xF0 then 3
    else 4
  }

  /** Number of width steps from byte offset `i` until the walk reaches or
      passes the end of `c`; from 0 it is the symbol count the string stores in
      `m_length`. A multi-byte lead near the end makes the last step overshoot;
      that truncated run still counts as one symbol. */
  function SymbolCount(c: seq<byte>, i: nat := 0): (n: nat)
    decreases |c| - i
    ensures i < |c| ==> 1 <= n <= |c| - i
    ensures i >= |c| ==> n == 0
    ensures i <= |c| ==> |c| - i <= 4 * n
  {
    if i >= |c| then 0 else 1 + SymbolCount(c, i + Width(c[i]))
  }

  /** The width walk from `i` ends exactly at the end of `c`: no truncated run. */
  predicate Aligned(c: seq<byte>, i: nat := 0)
    decreases |c| - i
  {
    if i >= |c| then i == |c| else Aligned(c, i + Width(c[i]))
  }

  predicate NoZero(c: seq<byte>)
  {
    forall k :: 0 <= k < |c| ==> c[k] != 0
  }

  /** Content on which every symbol-wise operation of the string is defined:
      no run is cut short by the end (the source would read past its buffer)
      and no embedded zero byte (its comparisons stop at the first zero). */
  predicate WellFormed(c: seq<byte>)
  {
    Aligned(c) && NoZero(c)
  }

  /** A complete UTF-8 sequence as far as the leading byte can tell. */
  predicate IsRun(r: seq<byte>)
  {
    |r| >= 1 && |r| == Width(r[0])
  }

  /** Every run of `s` is complete. */
  predicate AllRuns(s: seq<seq<byte>>)
  {
    forall k :: 0 <= k < |s| ==> IsRun(s[k])
  }

  /** The byte runs ("symbols") of `c` from offset `i` on, the last one
      possibly cut short. */
  function Symbols(c: seq<byte>, i: nat := 0): (runs: seq<seq<byte>>)
    decreases |c| - i
    ensures |runs| == SymbolCount(c, i)
  {
    if i >= |c| then []
    else [c[i..Min(i + Width(c[i]), |c|)]] + Symbols(c, i + Width(c[i]))
  }

  /** Concatenation of a sequence of byte runs. */
  function Flatten(rs: seq<seq<byte>>): seq<byte>
  {
    if rs == [] then [] else Flatten(rs[..|rs| - 1]) + rs[|rs| - 1]
  }

  /** Each element of `ps` flattened: the strings a list of symbol sequences stands for. */
  function FlattenEach(ps: seq<seq<seq<byte>>>): (r: seq<seq<byte>>)
    ensures |r| == |ps|
    ensures forall k :: 0 <= k < |ps| ==> r[k] == Flatten(ps[k])
  {
    if ps == [] then [] else FlattenEach(ps[..|ps| - 1]) + [Flatten(ps[|ps| - 1])]
  }

  /** `count` copies of `c` one after the other. */
  function RepeatBytes(c: seq<byte>, count: nat): (r: seq<byte>)
    ensures |r| == |c| * count
  {
    if count == 0 then [] else RepeatBytes(c, count - 1) + c
  }

  /** Byte offset reached after `k` width steps from `i`: from 0, where symbol
      `k` starts (the end offset for `k` equal to the count). */
  function Offset(c: seq<byte>, k: nat, i: nat := 0): (o: nat)
    requires k <= SymbolCount(c, i)
    decreases k
    ensures o >= i
  {
    if k == 0 then i else Offset(c, k - 1, i + Width(c[i]))
  }

  /** Length of a C string: the bytes before the first zero. */
  function CStrLen(s: seq<byte>): (n: nat)
    requires 0 in s
    ensures n < |s| && s[n] == 0
    ensures forall k :: 0 <= k < n ==> s[k] != 0
  {
    if s[0] == 0 then 0 else CStrLen(s[1..]) + 1
  }

  /** What `strcmp` sees of a byte string: everything before the first zero. */
  function CStr(s: seq<byte>): (r: seq<byte>)
    ensures NoZero(r) && r <= s
    ensures NoZero(s) ==> r == s
  {
    if s == [] || s[0] == 0 then [] else [s[0]] + CStr(s[1..])
  }

  /** The `operator==` of the string: `strcmp` on the two buffers. */
  function TextEquals(a: seq<byte>, b: seq<byte>): (r: bool)
    ensures NoZero(a) && NoZero(b) ==> (r <==> a == b)
  {
    CStr(a) == CStr(b)
  }

  /** The content of the string `get_symbol` builds from a run with the
      `(const char*, size)` constructor, which takes a zero last byte as the
      terminator. */
  function SymbolText(r: seq<byte>): (t: seq<byte>)
    ensures NoZero(r) ==> t == r
    ensures t <= r && |r| - 1 <= |t|
  {
    if |r| > 0 && r[|r| - 1] == 0 then r[..|r| - 1] else r
  }

  /** What `strcmp` sees of each symbol: two symbols compare equal through
      `get_symbol` exactly when these agree. */
  function Keys(s: seq<seq<byte>>): (ks: seq<seq<byte>>)
    ensures |ks| == |s|
    ensures forall k :: 0 <= k < |s| ==> ks[k] == CStr(s[k])
  {
    if s == [] then [] else Keys(s[..|s| - 1]) + [CStr(s[|s| - 1])]
  }

  //---------------------------------------------------------------------------
  // Code points
  //---------------------------------------------------------------------------

  /** The scalar value `get_code_point` assembles from a symbol with the masks
      of UTF8String.cpp: the payload bits of the lead byte followed by six bits
      of each continuation byte. Continuation bytes are not checked. */
  function CodePoint(r: seq<byte>): (cp: nat)
    requires IsRun(r)
    ensures cp < 0x20_0000
    ensures |r| == 1 ==> cp == r[0]
  {
    var b0: int, b1: int, b2: int, b3: int :=
      r[0], if |r| > 1 then r[1] else 0, if |r| > 2 then r[2] else 0, if |r| > 3 then r[3] else 0;
    if |r| == 1 then b0
    else if |r| == 2 then (b0 % 0x20) * 0x40 + b1 % 0x40
    else if |r| == 3 then (b0 % 0x10) * 0x1000 + (b1 % 0x40) * 0x40 + b2 % 0x40
    else (b0 % 0x8) * 0x4_0000 + (b1 % 0x40) * 0x1000 + (b2 % 0x40) * 0x40 + b3 % 0x40
  }

  function CodePoints(s: seq<seq<byte>>): (cps: seq<nat>)
    requires AllRuns(s)
    ensures |cps| == |s|
    ensures forall k :: 0 <= k < |s| ==> cps[k] == CodePoint(s[k])
  {
    if s == [] then [] else CodePoints(s[..|s| - 1]) + [CodePoint(s[|s| - 1])]
  }

  /** The value `bytes_to_uint32` gives a symbol: its bytes little-endian, the
      lead byte in the low eight bits. */
  function SymbolValue(r: seq<byte>): nat
  {
    if r == [] then 0 else r[0] + 0x100 * SymbolValue(r[1..])
  }

  /** The encoding table of section 3 of RFC 3629, for scalar values below 0x110000. */
  function Encode(cp: nat): (r: seq<byte>)
    requires cp < 0x11_0000
  {
    if cp < 0x80 then [cp]
    else if cp < 0x800 then [0xC0 + cp / 0x40, 0x80 + cp % 0x40]
    else if cp < 0x1_0000 then [0xE0 + cp / 0x1000, 0x80 + (cp / 0x40) % 0x40, 0x80 + cp % 0x40]
    else [0xF0 + cp / 0x4_0000, 0x80 + (cp / 0x1000) % 0x40, 0x80 + (cp / 0x40) % 0x40, 0x80 + cp % 0x40]
  }

  //---------------------------------------------------------------------------
  // Lemmas
  //---------------------------------------------------------------------------

  lemma {:induction false} FlattenAppend(a: seq<seq<byte>>, b: seq<seq<byte>>)
    ensures Flatten(a + b) == Flatten(a) + Flatten(b)
    decreases |b|
  {
    if b == [] {
      assert a + b == a;
    } else {
      assert (a + b)[..|a + b| - 1] == a + b[..|b| - 1];
      FlattenAppend(a, b[..|b| - 1]);
    }
  }

  lemma FlattenCons(r: seq<byte>, rs: seq<seq<byte>>)
    ensures Flatten([r] + rs) == r + Flatten(rs)
  {
    FlattenAppend([r], rs);
    assert [r][..0] == [];
  }

  lemma {:induction false} FlattenEachAppend(a: seq<seq<seq<byte>>>, b: seq<seq<seq<byte>>>)
    ensures FlattenEach(a + b) == FlattenEach(a) + FlattenEach(b)
  {
  }

  lemma FlattenSnoc(rs: seq<seq<byte>>, r: seq<byte>)
    ensures Flatten(rs + [r]) == Flatten(rs) + r
  {
    assert (rs + [r])[..|rs|] == rs;
  }

  lemma FlattenEachSnoc(ps: seq<seq<seq<byte>>>, p: seq<seq<byte>>)
    ensures FlattenEach(ps + [p]) == FlattenEach(ps) + [Flatten(p)]
  {
    assert (ps + [p])[..|ps|] == ps;
  }

  /** Cutting the content into symbols and gluing them back gives the content. */
  lemma {:induction false} FlattenSymbols(c: seq<byte>, i: nat := 0)
    requires i <= |c|
    ensures Flatten(Symbols(c, i)) == c[i..]
    decreases |c| - i
  {
    if i < |c| {
      var w := Width(c[i]);
      var j := Min(i + w, |c|);
      if i + w <= |c| {
        FlattenSymbols(c, i + w);
      } else {
        assert Symbols(c, i + w) == [];
      }
      FlattenCons(c[i..j], Symbols(c, i + w));
      assert c[i..] == c[i..j] + c[j..];
    }
  }

  /** The walk over `c` is the same whatever bytes precede it. */
  lemma {:induction false} Shift(p: seq<byte>, c: seq<byte>, i: nat)
    ensures SymbolCount(p + c, |p| + i) == SymbolCount(c, i)
    ensures Symbols(p + c, |p| + i) == Symbols(c, i)
    ensures Aligned(p + c, |p| + i) == Aligned(c, i)
    decreases |c| - i
  {
    if i < |c| {
      var w := Width(c[i]);
      assert (p + c)[|p| + i] == c[i];
      Shift(p, c, i + w);
      assert (p + c)[|p| + i..Min(|p| + i + w, |p + c|)] == c[i..Min(i + w, |c|)];
    }
  }

  /** Aligned content is cut into complete runs only. */
  lemma {:induction false} AlignedRuns(c: seq<byte>, i: nat := 0)
    requires Aligned(c, i)
    ensures forall k :: 0 <= k < |Symbols(c, i)| ==> IsRun(Symbols(c, i)[k])
    decreases |c| - i
  {
    if i < |c| {
      AlignedRuns(c, i + Width(c[i]));
    }
  }

  /** Gluing complete runs and cutting again gives the same runs back, and the
      glued content is aligned. */
  lemma {:induction false} SymbolsOfFlatten(rs: seq<seq<byte>>)
    requires forall k :: 0 <= k < |rs| ==> IsRun(rs[k])
    ensures Symbols(Flatten(rs)) == rs
    ensures Aligned(Flatten(rs))
    decreases |rs|
  {
    if rs != [] {
      var r, rest := rs[0], rs[1..];
      assert rs == [r] + rest;
      SymbolsOfFlatten(rest);
      FlattenCons(r, rest);
      var c := Flatten(rs);
      assert c == r + Flatten(rest);
      Shift(r, Flatten(rest), 0);
      assert c[0] == r[0];
      assert c[0..Min(Width(c[0]), |c|)] == r;
      assert Symbols(c, 0) == [r] + Symbols(c, |r|);
    }
  }

  /** Gluing runs without zero bytes gives content without zero bytes. */
  lemma {:induction false} FlattenNoZero(rs: seq<seq<byte>>)
    requires forall k :: 0 <= k < |rs| ==> NoZero(rs[k])
    ensures NoZero(Flatten(rs))
    decreases |rs|
  {
    if rs != [] {
      var init, last := rs[..|rs| - 1], rs[|rs| - 1];
      assert forall k :: 0 <= k < |init| ==> NoZero(init[k]) by {
        forall k | 0 <= k < |init| ensures NoZero(init[k]) { assert init[k] == rs[k]; }
      }
      FlattenNoZero(init);
      assert NoZero(last);
      var c := Flatten(rs);
      assert c == Flatten(init) + last;
      forall k | 0 <= k < |c| ensures c[k] != 0 {
        if k < |Flatten(init)| { assert c[k] == Flatten(init)[k]; } else { assert c[k] == last[k - |Flatten(init)|]; }
      }
    }
  }

  lemma {:induction false} SymbolsConcatAt(a: seq<byte>, b: seq<byte>, i: nat)
    requires Aligned(a, i)
    ensures Symbols(a + b, i) == Symbols(a, i) + Symbols(b)
    decreases |a| - i
  {
    if i < |a| {
      var w := Width(a[i]);
      assert Aligned(a, i + w);
      SymbolsConcatAt(a, b, i + w);
      SymbolsConcatStep(a, b, i);
    } else {
      Shift(a, b, 0);
      assert Symbols(a + b, |a| + 0) == Symbols(b, 0);
      assert Symbols(a, i) == [];
      assert [] + Symbols(b) == Symbols(b);
    }
  }

  /** One step of SymbolsConcatAt: the run at `i` lies inside `a`. */
  lemma SymbolsConcatStep(a: seq<byte>, b: seq<byte>, i: nat)
    requires i < |a| && i + Width(a[i]) <= |a|
    requires Symbols(a + b, i + Width(a[i])) == Symbols(a, i + Width(a[i])) + Symbols(b)
    ensures Symbols(a + b, i) == Symbols(a, i) + Symbols(b)
  {
    var w := Width(a[i]);
    var run := a[i..i + w];
    var rest, tail := Symbols(a, i + w), Symbols(b);
    assert Symbols(a + b, i) == [run] + (rest + tail) by {
      RunInPrefix(a, b, i);
      SymbolsStep(a + b, i);
    }
    assert Symbols(a, i) == [run] + rest by {
      SymbolsStep(a, i);
    }
    ConsAppend(run, rest, tail);
  }

  /** The run at `i` of `a`, when it ends inside `a`, is also the run at `i` of `a + b`. */
  lemma RunInPrefix(a: seq<byte>, b: seq<byte>, i: nat)
    requires i < |a| && i + Width(a[i]) <= |a|
    ensures (a + b)[i] == a[i]
    ensures (a + b)[i..Min(i + Width(a[i]), |a + b|)] == a[i..Min(i + Width(a[i]), |a|)] == a[i..i + Width(a[i])]
  {
  }

  lemma ConsAppend(x: seq<byte>, p: seq<seq<byte>>, q: seq<seq<byte>>)
    ensures [x] + (p + q) == ([x] + p) + q
  {
  }

  /** One unfolding of the symbol walk. */
  lemma SymbolsStep(c: seq<byte>, i: nat)
    requires i < |c|
    ensures Symbols(c, i) == [c[i..Min(i + Width(c[i]), |c|)]] + Symbols(c, i + Width(c[i]))
  {
  }

  lemma {:induction false} AlignedConcatAt(a: seq<byte>, b: seq<byte>, i: nat)
    requires Aligned(a, i)
    ensures Aligned(a + b, i) == Aligned(b)
    decreases |a| - i
  {
    if i < |a| {
      var w := Width(a[i]);
      assert (a + b)[i] == a[i];
      assert Aligned(a, i + w);
      AlignedConcatAt(a, b, i + w);
    } else {
      Shift(a, b, 0);
    }
  }

  /** Symbols of aligned content followed by anything: no run straddles the seam. */
  lemma SymbolsConcat(a: seq<byte>, b: seq<byte>)
    requires Aligned(a)
    ensures Symbols(a + b) == Symbols(a) + Symbols(b)
    ensures SymbolCount(a + b) == SymbolCount(a) + SymbolCount(b)
    ensures Aligned(a + b) == Aligned(b)
  {
    SymbolsConcatAt(a, b, 0);
    AlignedConcatAt(a, b, 0);
  }

  /** Well-formed content stays well-formed when joined, and its symbols join. */
  lemma WellFormedConcat(a: seq<byte>, b: seq<byte>)
    requires WellFormed(a) && WellFormed(b)
    ensures WellFormed(a + b)
    ensures Symbols(a + b) == Symbols(a) + Symbols(b)
  {
    SymbolsConcat(a, b);
    forall k | 0 <= k < |a + b| ensures (a + b)[k] != 0 {
      if k < |a| { assert (a + b)[k] == a[k]; } else { assert (a + b)[k] == b[k - |a|]; }
    }
  }

  /** The bytes of a slice of the symbols of well-formed content are
      well-formed, and cut back into exactly that slice. */
  lemma SliceSymbols(c: seq<byte>, a: nat, b: nat)
    requires WellFormed(c) && a <= b <= |Symbols(c)|
    ensures WellFormed(Flatten(Symbols(c)[a..b]))
    ensures Symbols(Flatten(Symbols(c)[a..b])) == Symbols(c)[a..b]
  {
    WellFormedSymbols(c);
    var rs := Symbols(c)[a..b];
    assert forall k :: 0 <= k < |rs| ==> rs[k] == Symbols(c)[a + k];
    SymbolsOfFlatten(rs);
    FlattenNoZero(rs);
  }

  /** Appending symbol `k` of well-formed content `c` to well-formed `e`
      appends it to the symbols of `e`. */
  lemma AppendSymbol(c: seq<byte>, k: nat, e: seq<byte>)
    requires WellFormed(c) && k < |Symbols(c)| && WellFormed(e)
    ensures WellFormed(e + Symbols(c)[k])
    ensures Symbols(e + Symbols(c)[k]) == Symbols(e) + [Symbols(c)[k]]
  {
    SliceSymbols(c, k, k + 1);
    assert Symbols(c)[k..k + 1] == [Symbols(c)[k]];
    assert Flatten([Symbols(c)[k]]) == Symbols(c)[k];
    WellFormedConcat(e, Symbols(c)[k]);
  }

  /** Without alignment the counts do not add up: a two-byte lead at the end of
      the first part swallows the first byte of the second. */
  lemma ConcatCountNeedsAlignment()
    ensures SymbolCount([0xC3]) == 1 && SymbolCount([0x41]) == 1
    ensures SymbolCount([0xC3] + [0x41]) == 1
    ensures !Aligned([0xC3])
  {
    assert [0xC3] + [0x41] == [0xC3, 0x41];
    assert Width(0xC3) == 2;
  }

  /** `count` copies of aligned content hold `count` times its symbols. */
  lemma {:induction false} RepeatSymbols(c: seq<byte>, count: nat)
    requires Aligned(c)
    ensures Aligned(RepeatBytes(c, count))
    ensures SymbolCount(RepeatBytes(c, count)) == count * SymbolCount(c)
  {
    if count > 0 {
      var prev := RepeatBytes(c, count - 1);
      RepeatSymbols(c, count - 1);
      SymbolsConcat(prev, c);
      assert RepeatBytes(c, count) == prev + c;
      assert (count - 1) * SymbolCount(c) + SymbolCount(c) == count * SymbolCount(c);
    }
  }

  /** Where symbol `k` of the walk from `i` starts, and which bytes it holds. */
  lemma SymbolAt(c: seq<byte>, k: nat, i: nat := 0)
    requires k < SymbolCount(c, i)
    ensures Offset(c, k, i) < |c|
    ensures Offset(c, k + 1, i) == Offset(c, k, i) + Width(c[Offset(c, k, i)])
    ensures Symbols(c, i)[k]
         == c[Offset(c, k, i)..Min(Offset(c, k, i) + Width(c[Offset(c, k, i)]), |c|)]
    ensures SymbolCount(c, Offset(c, k, i)) == SymbolCount(c, i) - k
    ensures Aligned(c, i) ==> Offset(c, k, i) + Width(c[Offset(c, k, i)]) <= |c|
  {
    OffsetCount(c, k, i);
    var o := Offset(c, k, i);
    OffsetStep(c, k, i);
    SymbolsIndex(c, k, i);
    if Aligned(c, i) {
      AlignedOffset(c, k, i);
      assert Aligned(c, o + Width(c[o]));
    }
  }

  /** In aligned content symbol `k` is the whole run at its offset. */
  lemma AlignedSymbol(c: seq<byte>, k: nat)
    requires Aligned(c) && k < SymbolCount(c)
    ensures Offset(c, k) < |c|
    ensures Offset(c, k) + Width(c[Offset(c, k)]) <= |c|
    ensures Symbols(c)[k] == c[Offset(c, k)..Offset(c, k) + Width(c[Offset(c, k)])]
  {
    SymbolAt(c, k);
  }

  /** One more width step from where symbol `k` starts. */
  lemma {:induction false} OffsetStep(c: seq<byte>, k: nat, i: nat)
    requires k < SymbolCount(c, i)
    ensures Offset(c, k, i) < |c|
    ensures Offset(c, k + 1, i) == Offset(c, k, i) + Width(c[Offset(c, k, i)])
    decreases k
  {
    if k > 0 {
      OffsetStep(c, k - 1, i + Width(c[i]));
    }
  }

  /** The bytes of the symbol that starts at `o`, cut short by the end. */
  function RunAt(c: seq<byte>, o: nat): seq<byte>
    requires o < |c|
  {
    c[o..Min(o + Width(c[o]), |c|)]
  }

  /** Run `k` of the walk from `i` is the bytes from where symbol `k` starts. */
  lemma {:induction false} SymbolsIndex(c: seq<byte>, k: nat, i: nat)
    requires k < SymbolCount(c, i)
    ensures Offset(c, k, i) < |c|
    ensures Symbols(c, i)[k] == RunAt(c, Offset(c, k, i))
    decreases k
  {
    var w := Width(c[i]);
    var rest := Symbols(c, i + w);
    assert Symbols(c, i) == [RunAt(c, i)] + rest;
    if k > 0 {
      SymbolsIndex(c, k - 1, i + w);
      assert Offset(c, k, i) == Offset(c, k - 1, i + w);
      assert Symbols(c, i)[k] == rest[k - 1];
    }
  }

  /** An aligned walk stays aligned at every symbol start. */
  lemma {:induction false} AlignedOffset(c: seq<byte>, k: nat, i: nat)
    requires k <= SymbolCount(c, i) && Aligned(c, i)
    ensures Aligned(c, Offset(c, k, i))
    decreases k
  {
    if k > 0 {
      AlignedOffset(c, k - 1, i + Width(c[i]));
    }
  }

  /** Where the walk is after `k` steps, the remaining count is `k` less. */
  lemma {:induction false} OffsetCount(c: seq<byte>, k: nat, i: nat := 0)
    requires k <= SymbolCount(c, i)
    ensures SymbolCount(c, Offset(c, k, i)) == SymbolCount(c, i) - k
    decreases k
  {
    if k > 0 {
      OffsetCount(c, k - 1, i + Width(c[i]));
    }
  }

  /** A walk that lands exactly on the end after `k` steps is aligned. */
  lemma {:induction false} OffsetAtEnd(c: seq<byte>, k: nat, i: nat)
    requires k <= SymbolCount(c, i) && Offset(c, k, i) == |c|
    ensures Aligned(c, i)
    decreases k
  {
    if k > 0 {
      OffsetAtEnd(c, k - 1, i + Width(c[i]));
    }
  }

  /** A terminator after the bytes changes nothing `strcmp` sees. */
  lemma {:induction false} CStrAppendZero(s: seq<byte>)
    ensures CStr(s + [0]) == CStr(s)
  {
    if s != [] && s[0] != 0 {
      assert (s + [0])[1..] == s[1..] + [0];
      CStrAppendZero(s[1..]);
    }
  }

  /** The buffer of the string `get_symbol` builds is its content and one
      terminator, and `strcmp` reads from it what it reads from the run. */
  lemma SymbolTextCStr(r: seq<byte>)
    ensures CStr(SymbolText(r) + [0]) == CStr(r)
  {
    if |r| > 0 && r[|r| - 1] == 0 {
      assert SymbolText(r) + [0] == r;
    } else {
      CStrAppendZero(r);
    }
  }

  /** Comparing a complete run with a one-byte ASCII literal through
      `strcmp` is comparing its bytes. */
  lemma SymbolIsAscii(r: seq<byte>, x: byte)
    requires IsRun(r) && 0 < x < 0x80
    ensures TextEquals(SymbolText(r) + [0], [x] + [0]) <==> r == [x]
  {
    SymbolTextCStr(r);
    CStrAppendZero([x]);
    if CStr(r) == [x] {
      assert r[0] == x;
    }
  }

  /** In well-formed text every symbol is what `strcmp` sees of it. */
  lemma KeysWhenWellFormed(c: seq<byte>)
    ensures WellFormed(c) ==> Keys(Symbols(c)) == Symbols(c)
  {
    if WellFormed(c) {
      WellFormedSymbols(c);
    }
  }

  /** A zero-terminated buffer without earlier zero bytes reads as its content. */
  lemma {:induction false} CStrTerminated(s: seq<byte>)
    ensures |s| >= 1 && s[|s| - 1] == 0 && NoZero(s[..|s| - 1]) ==> CStr(s) == s[..|s| - 1]
  {
    if |s| >= 2 && s[|s| - 1] == 0 && NoZero(s[..|s| - 1]) {
      assert s[0] != 0;
      var t := s[1..];
      assert t[..|t| - 1] == s[1..|s| - 1];
      CStrTerminated(t);
    }
  }

  lemma {:induction false} SymbolValueEqualLength(a: seq<byte>, b: seq<byte>)
    requires |a| == |b| && SymbolValue(a) == SymbolValue(b)
    ensures a == b
  {
    if a != [] {
      assert a[0] == SymbolValue(a) % 0x100 && b[0] == SymbolValue(b) % 0x100;
      assert SymbolValue(a[1..]) == SymbolValue(b[1..]);
      SymbolValueEqualLength(a[1..], b[1..]);
      assert a == [a[0]] + a[1..] && b == [b[0]] + b[1..];
    }
  }

  /** Two complete runs with the same little-endian value are the same run:
      the low byte is the lead byte, which fixes the length. */
  lemma SymbolValueInjective(a: seq<byte>, b: seq<byte>)
    requires IsRun(a) && IsRun(b) && SymbolValue(a) == SymbolValue(b)
    ensures a == b
  {
    assert a[0] == SymbolValue(a) % 0x100 && b[0] == SymbolValue(b) % 0x100;
    SymbolValueEqualLength(a, b);
  }

  /** The symbols of well-formed content are complete runs without zero bytes. */
  lemma WellFormedSymbols(c: seq<byte>)
    requires WellFormed(c)
    ensures forall k :: 0 <= k < |Symbols(c)| ==> IsRun(Symbols(c)[k]) && NoZero(Symbols(c)[k])
  {
    AlignedRuns(c);
    forall k | 0 <= k < |Symbols(c)| ensures NoZero(Symbols(c)[k]) {
      SymbolAt(c, k);
    }
  }

  lemma Encode2(cp: nat)
    requires 0x80 <= cp < 0x800
    ensures IsRun(Encode(cp)) && CodePoint(Encode(cp)) == cp && NoZero(Encode(cp))
  {
    var q, m := cp / 0x40, cp % 0x40;
    assert cp == q * 0x40 + m;
    assert 2 <= q < 0x20;
    var r := Encode(cp);
    assert r == [0xC0 + q, 0x80 + m];
    assert (0xC0 + q) % 0x20 == q;
    assert (0x80 + m) % 0x40 == m;
  }

  lemma Encode3(cp: nat)
    requires 0x800 <= cp < 0x1_0000
    ensures IsRun(Encode(cp)) && CodePoint(Encode(cp)) == cp && NoZero(Encode(cp))
  {
    var q, m := cp / 0x40, cp % 0x40;
    var q2, m2 := q / 0x40, q % 0x40;
    assert cp == q * 0x40 + m;
    assert q == q2 * 0x40 + m2;
    assert cp / 0x1000 == q2;
    assert q2 < 0x10;
    var r := Encode(cp);
    assert r == [0xE0 + q2, 0x80 + m2, 0x80 + m];
    assert (0xE0 + q2) % 0x10 == q2;
    assert (0x80 + m2) % 0x40 == m2;
    assert (0x80 + m) % 0x40 == m;
  }

  lemma Encode4(cp: nat)
    requires 0x1_0000 <= cp < 0x11_0000
    ensures IsRun(Encode(cp)) && CodePoint(Encode(cp)) == cp && NoZero(Encode(cp))
  {
    var q, m := cp / 0x40, cp % 0x40;
    var q2, m2 := q / 0x40, q % 0x40;
    var q3, m3 := q2 / 0x40, q2 % 0x40;
    assert cp == q * 0x40 + m;
    assert q == q2 * 0x40 + m2;
    assert q2 == q3 * 0x40 + m3;
    assert cp / 0x1000 == q2;
    assert cp / 0x4_0000 == q3;
    assert q3 < 0x5;
    var r := Encode(cp);
    assert r == [0xF0 + q3, 0x80 + m3, 0x80 + m2, 0x80 + m];
    assert (0xF0 + q3) % 0x8 == q3;
    assert (0x80 + m3) % 0x40 == m3;
    assert (0x80 + m2) % 0x40 == m2;
    assert (0x80 + m) % 0x40 == m;
  }

  /** The RFC 3629 encoding is a complete run that `CodePoint` decodes back. */
  lemma EncodeDecode(cp: nat)
    requires cp < 0x11_0000
    ensures IsRun(Encode(cp)) && CodePoint(Encode(cp)) == cp
    ensures cp != 0 ==> NoZero(Encode(cp))
  {
    if cp < 0x80 {
    } else if cp < 0x800 {
      Encode2(cp);
    } else if cp < 0x1_0000 {
      Encode3(cp);
    } else {
      Encode4(cp);
    }
  }
}
