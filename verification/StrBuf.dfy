/** The growing string buffer. */
module StrBufs {
  import opened Bytes

  const DEFAULT_SIZE: nat := 1023
  const DEFAULT_INCREMENT: int := -2

  // ----- the sizes of a buffer, apart from its bytes -----

  /** `moved` counts the bytes that reallocations had to move. */
  datatype Sizes = Sizes(size: nat, length: nat, reallocs: nat, moved: nat)

  function Pow(k: nat, n: nat): nat {
    if n == 0 then 1 else k * Pow(k, n - 1)
  }

  function GrowSize(size: nat, k: nat, needed: nat): (r: nat)
    requires size >= 1 && k >= 2
    ensures r >= needed && r >= size
    ensures size < needed ==> r >= k * size && r < k * needed
    decreases if needed > size then needed - size else 0
  {
    if size >= needed then size else
      Multiply(k, size, needed);
      Multiply(k, size, k * size);
      GrowSize(k * size, k, needed)
  }

  lemma Multiply(k: nat, a: nat, b: nat)
    requires k >= 2
    ensures k * a >= 2 * a
    ensures a < b ==> k * a < k * b
    ensures a <= b ==> k * a <= k * b
  {
  }

  /** Linear sizing: the size, not what is needed, rounded up to a multiple of the increment. */
  function LinearSize(size: nat, increment: nat): (r: nat)
    requires increment > 0
    ensures size <= r < size + increment
  {
    (size + increment - 1) / increment * increment
  }

  predicate IncrementOk(increment: int) {
    increment != 0 && increment != -1
  }

  /** calculate_new_size: a request below the size shrinks exactly; otherwise the buffer may grow. */
  function NewSize(size: nat, increment: int, len: nat): nat
    requires size >= 1 && IncrementOk(increment)
  {
    if size > len + 1 then len + 1
    else if increment < 0 then GrowSize(size, -increment, len + 1)
    else LinearSize(size, increment)
  }

  lemma RoundedStays(size: nat, increment: nat)
    requires increment > 0
    ensures LinearSize(LinearSize(size, increment), increment) == LinearSize(size, increment)
  {
    var q := (size + increment - 1) / increment;
    QuotientOfSum(q, increment);
  }

  lemma QuotientOfSum(q: nat, n: nat)
    requires n > 0
    ensures (q * n + n - 1) / n == q
  {
    var x := (q * n + n - 1) / n;
    assert n * x <= q * n + n - 1 < n * (x + 1);
    if x < q {
      Ordered(n, x + 1, q);
    } else if x > q {
      Ordered(n, q + 1, x);
    }
  }

  lemma Ordered(n: nat, a: nat, b: nat)
    requires a <= b
    ensures n * a <= n * b
  {
  }

  /**
   * Linear sizing does not do its duty: a buffer that has grown once never grows again, whatever is
   * requested, so there is room for a request if and only if the first growth made it.
   */
  lemma LinearGrowsOnce(size: nat, increment: nat, first: nat, len: nat)
    requires size >= 1 && increment > 0 && first + 1 >= size
    ensures var grown := NewSize(size, increment, first);
            && grown == LinearSize(size, increment)
            && NewSize(grown, increment, len) == (if grown > len + 1 then len + 1 else grown)
            && (NewSize(grown, increment, len) >= len + 1 <==> len + 1 <= LinearSize(size, increment))
  {
    RoundedStays(size, increment);
  }

  /** A buffer of 16 bytes with increment 16 is not enlarged for a string of 100 bytes. */
  lemma LinearStuck()
    ensures NewSize(16, 16, 100) == 16
  {
  }

  /** There will be room for `n` more bytes and a NUL: always, with exponential growth. */
  predicate Fits(st: Sizes, g: int, n: nat)
    requires st.length < st.size && IncrementOk(g)
  {
    g < 0 || st.length + n < st.size || st.length + n + 1 <= LinearSize(st.size, g)
  }

  /** strbuf_ensure_empty_length, with the increment `g`. */
  function Reserve(st: Sizes, g: int, n: nat): (r: Sizes)
    requires st.length < st.size && IncrementOk(g)
    ensures r.length == st.length && r.size >= st.size
    ensures Fits(st, g, n) <==> r.length + n < r.size
  {
    if n > st.size - st.length - 1
    then Sizes(NewSize(st.size, g, st.length + n), st.length, st.reallocs + 1, st.moved + st.size)
    else st
  }

  function Append(st: Sizes, g: int, n: nat): (r: Sizes)
    requires st.length < st.size && IncrementOk(g) && Fits(st, g, n)
    ensures r.length == st.length + n < r.size
    ensures g > 0 ==> r.size == st.size || r.size == LinearSize(st.size, g)
  {
    Reserve(st, g, n).(length := st.length + n)
  }

  lemma AppendOne(st: Sizes, g: int)
    requires st.length < st.size && IncrementOk(g) && Fits(st, g, 1)
    ensures Append(st, g, 1) ==
            if st.size - st.length - 1 < 1
            then Sizes(NewSize(st.size, g, st.length + 1), st.length + 1, st.reallocs + 1, st.moved + st.size)
            else st.(length := st.length + 1)
  {
  }

  /** `n` bytes appended one at a time. */
  function AppendEach(st: Sizes, g: int, n: nat): (r: Sizes)
    requires st.length < st.size && IncrementOk(g) && Fits(st, g, n)
    ensures r.length == st.length + n < r.size
    ensures g > 0 ==> r.size == st.size || r.size == LinearSize(st.size, g)
    decreases n
  {
    if n == 0 then st
    else
      assert g > 0 ==> LinearSize(LinearSize(st.size, g), g) == LinearSize(st.size, g) by {
        if g > 0 { RoundedStays(st.size, g); }
      }
      Append(AppendEach(st, g, n - 1), g, 1)
  }

  lemma {:induction false} AppendEachFits(st: Sizes, g: int, n: nat)
    requires st.length < st.size && IncrementOk(g) && n <= st.size - st.length - 1
    ensures AppendEach(st, g, n) == st.(length := st.length + n)
  {
    if n == 0 {
    } else {
      AppendEachFits(st, g, n - 1);
    }
  }

  /** A run of checked appends of the given lengths. */
  function RunAppends(st: Sizes, g: int, lengths: seq<nat>): (r: Sizes)
    requires st.length < st.size && g <= -2
    ensures r.length < r.size
    decreases |lengths|
  {
    if |lengths| == 0 then st
    else Append(RunAppends(st, g, lengths[..|lengths| - 1]), g, lengths[|lengths| - 1])
  }

  lemma {:induction false} RunConcat(st: Sizes, g: int, a: seq<nat>, b: seq<nat>)
    requires st.length < st.size && g <= -2
    ensures RunAppends(st, g, a + b) == RunAppends(RunAppends(st, g, a), g, b)
    decreases |b|
  {
    if |b| == 0 {
      assert a + b == a;
    } else {
      assert (a + b)[..|a + b| - 1] == a + b[..|b| - 1];
      RunConcat(st, g, a, b[..|b| - 1]);
    }
  }

  function Ones(n: nat): (s: seq<nat>)
    ensures |s| == n && forall i :: 0 <= i < n ==> s[i] == 1
  {
    seq(n, _ => 1)
  }

  lemma {:induction false} AppendEachIsRun(st: Sizes, g: int, n: nat)
    requires st.length < st.size && g <= -2
    ensures AppendEach(st, g, n) == RunAppends(st, g, Ones(n))
  {
    if n == 0 {
    } else {
      assert Ones(n)[..n - 1] == Ones(n - 1);
      AppendEachIsRun(st, g, n - 1);
    }
  }

  /** What one checked append is given: a byte, some bytes, or a C string. */
  datatype Piece = CharPiece(c: byte) | MemPiece(mem: bytes) | StringPiece(str: bytes)

  ghost predicate PiecesOk(pieces: seq<Piece>) {
    forall i :: 0 <= i < |pieces| && pieces[i].StringPiece? ==> NulFree(pieces[i].str)
  }

  function PieceBytes(p: Piece): bytes {
    match p
    case CharPiece(c) => [c]
    case MemPiece(mem) => mem
    case StringPiece(str) => str
  }

  /** The lengths of the appends made for a piece: a C string goes byte by byte. */
  function PieceSteps(p: Piece): seq<nat> {
    match p
    case CharPiece(_) => [1]
    case MemPiece(mem) => [|mem|]
    case StringPiece(str) => Ones(|str|)
  }

  function AllBytes(pieces: seq<Piece>): bytes
    decreases |pieces|
  {
    if |pieces| == 0 then [] else AllBytes(pieces[..|pieces| - 1]) + PieceBytes(pieces[|pieces| - 1])
  }

  function AllSteps(pieces: seq<Piece>): seq<nat>
    decreases |pieces|
  {
    if |pieces| == 0 then [] else AllSteps(pieces[..|pieces| - 1]) + PieceSteps(pieces[|pieces| - 1])
  }

  lemma RunOne(st: Sizes, g: int, n: nat)
    requires st.length < st.size && g <= -2
    ensures RunAppends(st, g, [n]) == Append(st, g, n)
  {
    assert [n][..0] == [];
  }

  lemma PieceIsRun(st: Sizes, g: int, p: Piece)
    requires st.length < st.size && g <= -2
    ensures p.CharPiece? ==> RunAppends(st, g, PieceSteps(p)) == Append(st, g, 1)
    ensures p.MemPiece? ==> RunAppends(st, g, PieceSteps(p)) == Append(st, g, |p.mem|)
    ensures p.StringPiece? ==> RunAppends(st, g, PieceSteps(p)) == AppendEach(st, g, |p.str|)
  {
    match p
    case CharPiece(_) => RunOne(st, g, 1);
    case MemPiece(mem) => RunOne(st, g, |mem|);
    case StringPiece(str) => AppendEachIsRun(st, g, |str|);
  }

  lemma NothingYet(st: Sizes, g: int, pieces: seq<Piece>)
    requires st.length < st.size && g <= -2
    ensures AllBytes(pieces[..0]) == [] && RunAppends(st, g, AllSteps(pieces[..0])) == st
  {
  }

  /** One piece more. */
  lemma PiecesStep(st: Sizes, g: int, pieces: seq<Piece>, i: nat)
    requires st.length < st.size && g <= -2 && i < |pieces|
    ensures AllBytes(pieces[..i + 1]) == AllBytes(pieces[..i]) + PieceBytes(pieces[i])
    ensures RunAppends(st, g, AllSteps(pieces[..i + 1]))
            == RunAppends(RunAppends(st, g, AllSteps(pieces[..i])), g, PieceSteps(pieces[i]))
  {
    assert pieces[..i + 1][..i] == pieces[..i];
    RunConcat(st, g, AllSteps(pieces[..i]), PieceSteps(pieces[i]));
  }

  function Sum(lengths: seq<nat>): nat {
    if |lengths| == 0 then 0 else Sum(lengths[..|lengths| - 1]) + lengths[|lengths| - 1]
  }

  /** What growth by a factor k, starting from `initial` bytes, keeps true. */
  ghost predicate Amortized(st: Sizes, k: nat, initial: nat) {
    && st.length < st.size
    && Pow(k, st.reallocs) * initial <= st.size
    && (k - 1) * st.moved + initial <= st.size
    && (st.reallocs == 0 ==> st.size == initial && st.moved == 0)
  }

  lemma GrowthIs(st: Sizes, k: nat, n: nat)
    requires st.length < st.size && k >= 2
    ensures Append(st, -(k as int), n) ==
            if n > st.size - st.length - 1
            then Sizes(GrowSize(st.size, k, st.length + n + 1), st.length + n, st.reallocs + 1, st.moved + st.size)
            else st.(length := st.length + n)
  {
    hide GrowSize;
  }

  lemma GrowthStep(st: Sizes, k: nat, initial: nat, n: nat)
    requires Amortized(st, k, initial) && k >= 2 && initial >= 1
    ensures Amortized(Append(st, -(k as int), n), k, initial)
    ensures n > st.size - st.length - 1 ==> Append(st, -(k as int), n).size < k * (st.length + n + 1)
  {
    GrowthIs(st, k, n);
    hide Append, GrowSize;
    if n > st.size - st.length - 1 {
      PowerStep(k, st.reallocs, initial, st.size);
      Distribute(k, st.moved, st.size);
      hide Pow;
    }
  }

  lemma PowerStep(k: nat, n: nat, initial: nat, size: nat)
    requires k >= 2 && Pow(k, n) * initial <= size
    ensures Pow(k, n + 1) * initial <= k * size
  {
    Associate(k, Pow(k, n), initial);
    Multiply(k, Pow(k, n) * initial, size);
  }

  lemma Associate(a: nat, b: nat, c: nat)
    ensures a * b * c == a * (b * c)
  {
  }

  lemma Distribute(k: nat, a: nat, b: nat)
    ensures (k - 1) * (a + b) == (k - 1) * a + k * b - b
  {
  }

  /**
   * Growth is geometric over any run of appends to an empty buffer: after r reallocations the size
   * is at least k^r times the first size, it is below k times what is stored, and all
   * reallocations together have moved at most size / (k - 1) bytes.
   */
  lemma {:induction false} RunAmortized(initial: nat, k: nat, lengths: seq<nat>)
    requires initial >= 1 && k >= 2
    ensures var end := RunAppends(Sizes(initial, 0, 0, 0), -(k as int), lengths);
            && Amortized(end, k, initial)
            && end.length == Sum(lengths)
            && (end.reallocs > 0 ==> end.size < k * (end.length + 1))
    decreases |lengths|
  {
    if |lengths| > 0 {
      var before := RunAppends(Sizes(initial, 0, 0, 0), -(k as int), lengths[..|lengths| - 1]);
      var n := lengths[|lengths| - 1];
      RunAmortized(initial, k, lengths[..|lengths| - 1]);
      GrowthStep(before, k, initial, n);
      Multiply(k, before.length + 1, before.length + n + 1);
    } else {
      assert Pow(k, 0) * initial == initial;
    }
  }

  // ----- the buffer -----

  class StrBuf {
    var buf: array<byte>
    var size: nat
    var length: nat
    var increment: int
    var reallocs: nat
    ghost var moved: nat

    /** What strbuf_resize relies on. */
    ghost predicate Allocated()
      reads this
    {
      buf.Length == size && size >= 1 && IncrementOk(increment)
    }

    /** There is room for a NUL. */
    ghost predicate Valid()
      reads this
    {
      buf.Length == size && length < size && IncrementOk(increment)
    }

    /** Growth is exponential, as by default. */
    ghost predicate Exponential()
      reads this
    {
      Valid() && increment <= -2
    }

    /** Appending `n` bytes finds or makes the room. */
    ghost predicate RoomFor(n: nat)
      reads this
      requires Valid()
    {
      Fits(Measure(), increment, n)
    }

    ghost function Contents(): bytes
      reads this, buf
      requires Valid()
    {
      buf[..length]
    }

    ghost function Measure(): Sizes
      reads this
    {
      Sizes(size, length, reallocs, moved)
    }

    constructor (len: int)
      ensures Exponential() && fresh(buf)
      ensures Contents() == [] && buf[0] == 0
      ensures size == if len <= 0 then 1023 else len + 1
      ensures increment == -2 && reallocs == 0 && moved == 0
    {
      var n: nat := if len <= 0 then DEFAULT_SIZE else len + 1;
      size := n;
      length := 0;
      increment := DEFAULT_INCREMENT;
      reallocs := 0;
      moved := 0;
      buf := new byte[n];
      new;
      EnsureNull();
    }

    function EmptyLength(): int
      reads this
    {
      size - length - 1
    }

    method CalculateNewSize(len: nat) returns (newsize: nat)
      requires Allocated() && len > 0
      ensures newsize == NewSize(size, increment, len)
    {
      var reqsize := len + 1;
      if size > reqsize {
        return reqsize;
      }
      newsize := size;
      if increment < 0 {
        var factor: nat := -increment;
        while newsize < reqsize
          invariant newsize >= 1
          invariant GrowSize(newsize, factor, reqsize) == GrowSize(size, factor, reqsize)
          decreases reqsize - newsize
        {
          Multiply(factor, newsize, reqsize);
          newsize := factor * newsize;
        }
      } else {
        newsize := (newsize + increment - 1) / increment * increment;
      }
    }

    /** Reallocates: the first bytes are kept, as many as fit. */
    method Resize(len: nat)
      requires Allocated() && len > 0
      modifies this`buf, this`size, this`reallocs, this`moved
      ensures Allocated() && fresh(buf)
      ensures size == NewSize(old(size), increment, len)
      ensures var kept := if size < old(size) then size else old(size);
              buf[..kept] == old(buf[..kept]) && moved == old(moved) + kept
      ensures reallocs == old(reallocs) + 1
      ensures old(Valid()) && old(size) <= len + 1 ==>
                && Valid() && Contents() == old(Contents())
                && Measure() == Sizes(NewSize(old(size), increment, len), old(length), old(reallocs) + 1,
                                      old(moved) + old(size))
    {
      var newsize := CalculateNewSize(len);
      var newbuf := new byte[newsize];
      var kept := if newsize < size then newsize else size;
      var i := 0;
      while i < kept
        invariant 0 <= i <= kept
        invariant newbuf[..i] == buf[..i]
        modifies newbuf
      {
        newbuf[i] := buf[i];
        i := i + 1;
      }
      moved := moved + kept;
      size := newsize;
      buf := newbuf;
      reallocs := reallocs + 1;
    }

    /** After this, `len` bytes can be stored without a check, if there could be room for them. */
    method EnsureEmptyLength(len: nat)
      requires Valid()
      modifies this
      ensures Valid() && (buf == old(buf) || fresh(buf))
      ensures Contents() == old(Contents())
      ensures Measure() == Reserve(old(Measure()), old(increment), len)
      ensures len <= EmptyLength() <==> old(RoomFor(len))
      ensures len <= old(EmptyLength()) ==> buf == old(buf)
      ensures increment == old(increment)
    {
      if len > EmptyLength() {
        Resize(length + len);
      }
    }

    method AppendChar(c: byte)
      requires Valid() && RoomFor(1)
      modifies this, buf
      ensures Valid() && (buf == old(buf) || fresh(buf))
      ensures Contents() == old(Contents()) + [c]
      ensures Measure() == Append(old(Measure()), old(increment), 1)
      ensures increment == old(increment)
    {
      EnsureEmptyLength(1);
      AppendCharUnsafe(c);
    }

    /** No check: the caller has seen to it that there is room, also for a NUL. */
    method AppendCharUnsafe(c: byte)
      requires Valid() && length + 1 < size
      modifies this`length, buf
      ensures Valid()
      ensures Contents() == old(Contents()) + [c]
      ensures length == old(length) + 1
    {
      buf[length] := c;
      length := length + 1;
    }

    method AppendMem(c: bytes)
      requires Valid() && RoomFor(|c|)
      modifies this, buf
      ensures Valid() && (buf == old(buf) || fresh(buf))
      ensures Contents() == old(Contents()) + c
      ensures Measure() == Append(old(Measure()), old(increment), |c|)
      ensures increment == old(increment)
    {
      EnsureEmptyLength(|c|);
      AppendMemUnsafe(c);
    }

    method AppendMemUnsafe(c: bytes)
      requires Valid() && length + |c| < size
      modifies this`length, buf
      ensures Valid()
      ensures Contents() == old(Contents()) + c
      ensures length == old(length) + |c|
    {
      var i := 0;
      while i < |c|
        invariant 0 <= i <= |c|
        invariant buf[..length] == old(buf[..length])
        invariant buf[length..length + i] == c[..i]
        modifies buf
      {
        buf[length + i] := c[i];
        i := i + 1;
      }
      length := length + |c|;
    }

    /** Appends a C string, one byte at a time. */
    method AppendString(str: bytes)
      requires Valid() && NulFree(str) && RoomFor(|str|)
      modifies this, buf
      ensures Valid() && (buf == old(buf) || fresh(buf))
      ensures Contents() == old(Contents()) + str
      ensures Measure() == AppendEach(old(Measure()), old(increment), |str|)
      ensures |str| <= old(EmptyLength()) ==> buf == old(buf) && reallocs == old(reallocs) && size == old(size)
      ensures increment == old(increment)
    {
      hide Append, Reserve, GrowSize, NewSize, IncrementOk;
      var space := EmptyLength();
      var i := 0;
      while At(str, i) != 0
        invariant 0 <= i <= |str|
        invariant Valid() && (buf == old(buf) || fresh(buf))
        invariant space == EmptyLength()
        invariant increment == old(increment)
        invariant Contents() == old(Contents()) + str[..i]
        invariant Measure() == AppendEach(old(Measure()), old(increment), i)
        invariant old(reallocs) <= reallocs && (reallocs == old(reallocs) ==> buf == old(buf))
        decreases |str| - i
      {
        AppendOne(Measure(), increment);
        assert str[..i + 1] == str[..i] + [str[i]];
        if space < 1 {
          Resize(length + 1);
          space := EmptyLength();
        }
        assert Valid() && length + 1 < size && Contents() == old(Contents()) + str[..i];
        AppendCharUnsafe(str[i]);
        space := space - 1;
        i := i + 1;
      }
      assert |str| <= old(EmptyLength()) ==> Measure() == old(Measure()).(length := old(length) + |str|) by {
        if |str| <= old(EmptyLength()) {
          AppendEachFits(old(Measure()), old(increment), |str|);
        }
      }
    }

    method EnsureNull()
      requires buf.Length == size && length < size
      modifies buf
      ensures buf[..length] == old(buf[..length]) && buf[length] == 0
    {
      buf[length] := 0;
    }

    method Reset()
      requires Valid()
      modifies this`length
      ensures Valid() && Contents() == []
    {
      length := 0;
    }

    /** Accounts for `len` bytes already written behind the stored ones. */
    method ExtendLength(len: nat)
      requires Valid() && length + len < size
      modifies this`length
      ensures Valid()
      ensures Contents() == old(Contents()) + buf[old(length)..old(length) + len]
      ensures length == old(length) + len
    {
      length := length + len;
    }

    method AppendPiece(p: Piece)
      requires Exponential() && PiecesOk([p])
      modifies this, buf
      ensures Exponential() && (buf == old(buf) || fresh(buf))
      ensures Contents() == old(Contents()) + PieceBytes(p)
      ensures Measure() == RunAppends(old(Measure()), old(increment), PieceSteps(p))
      ensures increment == old(increment)
    {
      hide Append, Reserve, RunAppends, AppendEach;
      PieceIsRun(Measure(), increment, p);
      match p {
        case CharPiece(c) => AppendChar(c);
        case MemPiece(mem) => AppendMem(mem);
        case StringPiece(str) =>
          assert [p][0].str == str;
          AppendString(str);
      }
    }

    /** Any sequence of checked appends: what is stored then, and what it took. */
    method AppendPieces(pieces: seq<Piece>)
      requires Exponential() && PiecesOk(pieces)
      modifies this, buf
      ensures Exponential() && (buf == old(buf) || fresh(buf))
      ensures Contents() == old(Contents()) + AllBytes(pieces)
      ensures Measure() == RunAppends(old(Measure()), old(increment), AllSteps(pieces))
      ensures increment == old(increment)
    {
      hide PieceBytes, AllBytes, AllSteps, PieceSteps, RunAppends;
      var i := 0;
      NothingYet(Measure(), increment, pieces);
      while i < |pieces|
        invariant 0 <= i <= |pieces|
        invariant Exponential() && (buf == old(buf) || fresh(buf))
        invariant increment == old(increment)
        invariant Contents() == old(Contents()) + AllBytes(pieces[..i])
        invariant Measure() == RunAppends(old(Measure()), old(increment), AllSteps(pieces[..i]))
      {
        PiecesStep(old(Measure()), old(increment), pieces, i);
        AppendPiece(pieces[i]);
        i := i + 1;
      }
      assert pieces[..|pieces|] == pieces;
    }

    method ToBytes() returns (s: bytes)
      requires Valid()
      ensures s == Contents()
    {
      s := buf[..length];
    }
  }

  /**
   * A new buffer and any sequence of checked appends: the bytes are there in order, and the sizes
   * keep the bounds of geometric growth.
   */
  method Assemble(len: int, pieces: seq<Piece>) returns (b: StrBuf)
    requires PiecesOk(pieces)
    ensures b.Exponential() && fresh(b) && fresh(b.buf)
    ensures b.Contents() == AllBytes(pieces)
    ensures var initial: nat := if len <= 0 then DEFAULT_SIZE else len + 1;
            && Amortized(b.Measure(), 2, initial)
            && (b.reallocs > 0 ==> b.size < 2 * (|AllBytes(pieces)| + 1))
  {
    hide Amortized, AllBytes, AllSteps, RunAppends;
    b := new StrBuf(len);
    ghost var initial: nat := b.size;
    b.AppendPieces(pieces);
    RunAmortized(initial, 2, AllSteps(pieces));
  }
}
