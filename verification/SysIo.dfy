/** sysio_writev_chain of src/fast_sysio.c and the chain functions of src/fast_chain.c that it
    uses, for chains of buffers in memory. */
module SysIo {

  const MAX_LIMIT := 2147479552
  const IOVS_MAX := 32

  type Memory = seq<bv8>

  // ---------- pieces of memory ----------

  /** The addresses from `pos` up to `last`. */
  datatype Span = Span(pos: nat, last: nat)

  /** The pieces lie inside the memory and do not overlap. */
  ghost predicate Sound(m: Memory, v: seq<Span>)
  {
    && (forall i :: 0 <= i < |v| ==> v[i].pos <= v[i].last <= |m|)
    && (forall i, j :: 0 <= i < j < |v| ==> Apart(v[i], v[j]))
  }

  ghost predicate Apart(a: Span, b: Span)
  {
    a.last <= b.pos || b.last <= a.pos || a.pos == a.last || b.pos == b.last
  }

  ghost predicate Inside(m: Memory, v: seq<Span>)
  {
    forall i :: 0 <= i < |v| ==> v[i].pos <= v[i].last <= |m|
  }

  /** The bytes of the pieces, one piece after the other. */
  function Bytes(m: Memory, v: seq<Span>): seq<bv8>
    requires Inside(m, v)
  {
    if v == [] then [] else m[v[0].pos..v[0].last] + Bytes(m, v[1..])
  }

  lemma Associative<T>(a: seq<T>, b: seq<T>, c: seq<T>)
    ensures (a + b) + c == a + (b + c)
  {
  }

  lemma {:induction false} BytesConcat(m: Memory, v: seq<Span>, w: seq<Span>)
    requires Inside(m, v) && Inside(m, w)
    ensures Inside(m, v + w) && Bytes(m, v + w) == Bytes(m, v) + Bytes(m, w)
  {
    assert Inside(m, v + w);
    hide Inside, Bytes;
    if v == [] {
      NoBytes(m, v);
      assert v + w == w;
    } else {
      InsideTail(m, v);
      InsideTail(m, v + w);
      BytesConcat(m, v[1..], w);
      assert (v + w)[0] == v[0] && (v + w)[1..] == v[1..] + w;
      Associative(m[v[0].pos..v[0].last], Bytes(m, v[1..]), Bytes(m, w));
    }
  }

  lemma BytesOne(m: Memory, a: Span)
    requires a.pos <= a.last <= |m|
    ensures Inside(m, [a]) && Bytes(m, [a]) == m[a.pos..a.last]
  {
    assert [a][1..] == [];
  }

  // ---------- what is left after a write ----------

  /** What is left of the pieces when their first `n` bytes are done. */
  function Consumed(v: seq<Span>, n: nat): (w: seq<Span>)
    ensures |w| == |v|
  {
    if v == [] || n == 0 then v
    else if n < v[0].last - v[0].pos then [v[0].(pos := v[0].pos + n)] + v[1..]
    else [v[0].(pos := v[0].last)] + Consumed(v[1..], n - (v[0].last - v[0].pos))
  }

  /** The position of the first piece that is not done with the first `n` bytes. */
  function Resume(v: seq<Span>, n: nat): (k: nat)
    ensures k <= |v|
  {
    if v == [] || n == 0 || n < v[0].last - v[0].pos then 0
    else 1 + Resume(v[1..], n - (v[0].last - v[0].pos))
  }

  function Emptied(v: seq<Span>): seq<Span>
  {
    seq(|v|, i requires 0 <= i < |v| => Span(v[i].last, v[i].last))
  }

  lemma DropConcat<T>(a: seq<T>, b: seq<T>, n: nat)
    requires n <= |a| + |b|
    ensures (a + b)[n..] == if n < |a| then a[n..] + b else b[n - |a|..]
  {
  }

  lemma ConsumedFirst(m: Memory, v: seq<Span>, n: nat)
    requires Inside(m, v) && v != [] && 0 < n < v[0].last - v[0].pos
    ensures Inside(m, Consumed(v, n)) && n <= |Bytes(m, v)| && Bytes(m, Consumed(v, n)) == Bytes(m, v)[n..]
  {
    hide Bytes, Inside, Consumed;
    var a, t := v[0], v[1..];
    ConsumedCases(v, n);
    InsideTail(m, v);
    DropConcat(m[a.pos..a.last], Bytes(m, t), n);
    BytesCons(m, a.(pos := a.pos + n), t);
    DropSlice(m, a.pos, a.last, n);
  }

  /** Exactly the first `n` bytes are gone. */
  lemma {:induction false} ConsumedBytes(m: Memory, v: seq<Span>, n: nat)
    requires Inside(m, v) && n <= |Bytes(m, v)|
    ensures Inside(m, Consumed(v, n)) && Bytes(m, Consumed(v, n)) == Bytes(m, v)[n..]
  {
    hide Bytes, Inside, Consumed;
    ConsumedCases(v, n);
    if v == [] {
      NoBytes(m, v);
    } else if 0 < n < v[0].last - v[0].pos {
      ConsumedFirst(m, v, n);
    } else if n > 0 {
      var a, t := v[0], v[1..];
      InsideTail(m, v);
      var k := a.last - a.pos;
      DropConcat(m[a.pos..a.last], Bytes(m, t), n);
      ConsumedBytes(m, t, n - k);
      BytesCons(m, a.(pos := a.last), Consumed(t, n - k));
      assert m[a.last..a.last] == [];
    }
  }

  lemma ConsumedCases(v: seq<Span>, n: nat)
    ensures v == [] || n == 0 ==> Consumed(v, n) == v
    ensures v != [] && n > 0 ==> var k := v[0].last - v[0].pos;
      Consumed(v, n) == if n < k then [v[0].(pos := v[0].pos + n)] + v[1..] else [v[0].(pos := v[0].last)] + Consumed(v[1..], n - k)
  {
  }

  lemma DropSlice<T>(m: seq<T>, i: nat, j: nat, n: nat)
    requires i <= j <= |m| && n <= j - i
    ensures m[i..j][n..] == m[i + n..j]
  {
  }

  lemma InsideTail(m: Memory, v: seq<Span>)
    requires Inside(m, v) && v != []
    ensures v[0].pos <= v[0].last <= |m| && Inside(m, v[1..])
    ensures Bytes(m, v) == m[v[0].pos..v[0].last] + Bytes(m, v[1..])
  {
  }

  lemma BytesCons(m: Memory, a: Span, v: seq<Span>)
    requires Inside(m, v) && a.pos <= a.last <= |m|
    ensures Inside(m, [a] + v) && Bytes(m, [a] + v) == m[a.pos..a.last] + Bytes(m, v)
  {
    assert ([a] + v)[1..] == v;
  }

  /** The pieces in front of the resumption have nothing left. */
  lemma {:induction false} ConsumedFront(v: seq<Span>, n: nat)
    ensures forall i :: 0 <= i < Resume(v, n) ==> Consumed(v, n)[i].pos == Consumed(v, n)[i].last
  {
    if v != [] && n > 0 && n >= v[0].last - v[0].pos {
      var k := n - (v[0].last - v[0].pos);
      ConsumedFront(v[1..], k);
      forall i | 0 <= i < Resume(v, n) ensures Consumed(v, n)[i].pos == Consumed(v, n)[i].last {
        assert i > 0 ==> Consumed(v, n)[i] == Consumed(v[1..], k)[i - 1];
      }
    }
  }

  /** Pieces that have nothing left can be skipped. */
  lemma {:induction false} SkipEmpty(m: Memory, v: seq<Span>, k: nat)
    requires Inside(m, v) && k <= |v| && forall i :: 0 <= i < k ==> v[i].pos == v[i].last
    ensures Inside(m, v[k..]) && Bytes(m, v[k..]) == Bytes(m, v)
  {
    if k > 0 {
      SkipEmpty(m, v[1..], k - 1);
      assert v[1..][k - 1..] == v[k..];
    } else {
      assert v[0..] == v;
    }
  }

  lemma {:induction false} ConsumedWithin(v: seq<Span>, n: nat)
    requires forall i :: 0 <= i < |v| ==> v[i].pos <= v[i].last
    ensures forall i :: 0 <= i < |v| ==> v[i].pos <= Consumed(v, n)[i].pos <= Consumed(v, n)[i].last == v[i].last
  {
    if v != [] && n > 0 && n >= v[0].last - v[0].pos {
      ConsumedWithin(v[1..], n - (v[0].last - v[0].pos));
      assert forall i :: 0 < i < |v| ==> v[i] == v[1..][i - 1];
    }
  }

  lemma ConsumedSound(m: Memory, v: seq<Span>, n: nat)
    requires Sound(m, v)
    ensures Sound(m, Consumed(v, n))
  {
    ConsumedWithin(v, n);
    var w := Consumed(v, n);
    forall i, j | 0 <= i < j < |w| ensures Apart(w[i], w[j]) {
      assert Apart(v[i], v[j]);
    }
  }

  lemma ConsumedStep(v: seq<Span>, i: nat, n: nat)
    requires i < |v| && n > 0 && n >= v[i].last - v[i].pos
    ensures Emptied(v[..i]) + Consumed(v[i..], n) == Emptied(v[..i + 1]) + Consumed(v[i + 1..], n - (v[i].last - v[i].pos))
    ensures i + Resume(v[i..], n) == i + 1 + Resume(v[i + 1..], n - (v[i].last - v[i].pos))
  {
    assert v[i..][1..] == v[i + 1..];
    assert Emptied(v[..i + 1]) == Emptied(v[..i]) + [Span(v[i].last, v[i].last)];
  }

  // ---------- chains ----------

  /** The part `pos .. last` of the memory is still to be written. */
  class Buffer {
    var pos: nat
    var last: nat
    constructor (pos: nat, last: nat)
      ensures this.pos == pos && this.last == last
    {
      this.pos, this.last := pos, last;
    }
  }

  class Chain {
    const buf: Buffer
    const next: Chain?
    constructor (buf: Buffer, next: Chain?)
      ensures this.buf == buf && this.next == next
    {
      this.buf, this.next := buf, next;
    }
  }

  /** The chain that starts at `l` has the links `s`, with a buffer each. */
  ghost predicate Links(l: Chain?, s: seq<Chain>)
  {
    && l == Start(s, 0)
    && (forall i :: 0 <= i < |s| ==> s[i].next == Start(s, i + 1))
    && (forall i, j :: 0 <= i < j < |s| ==> s[i].buf != s[j].buf)
  }

  ghost function Start(s: seq<Chain>, i: nat): Chain?
  {
    if i < |s| then s[i] else null
  }

  ghost function Bufs(s: seq<Chain>): set<Buffer>
  {
    set i | 0 <= i < |s| :: s[i].buf
  }

  function SpanOf(b: Buffer): Span
    reads b
  {
    Span(b.pos, b.last)
  }

  lemma BufsTail(s: seq<Chain>)
    requires s != []
    ensures Bufs(s[1..]) <= Bufs(s) && s[0].buf in Bufs(s)
  {
    assert forall i :: 0 <= i < |s| - 1 ==> s[1..][i] == s[i + 1];
  }

  /** What the buffers of the links still have to write. */
  ghost function Spans(s: seq<Chain>): (v: seq<Span>)
    reads Bufs(s)
    ensures |v| == |s| && forall i :: 0 <= i < |s| ==> v[i] == SpanOf(s[i].buf)
  {
    if s == [] then [] else
      assert Bufs(s[1..]) <= Bufs(s) by { BufsTail(s); }
      [SpanOf(s[0].buf)] + Spans(s[1..])
  }

  ghost predicate Ordered(v: seq<Span>)
  {
    forall i :: 0 <= i < |v| ==> v[i].pos <= v[i].last
  }

  /** A store into the buffer of link `i` changes the piece `i`. */
  twostate lemma SpanStored(s: seq<Chain>, new i: nat)
    requires i < |s| && (forall j, k :: 0 <= j < k < |s| ==> s[j].buf != s[k].buf)
    requires forall j :: 0 <= j < |s| && j != i ==> s[j].buf.pos == old(s[j].buf.pos) && s[j].buf.last == old(s[j].buf.last)
    ensures Spans(s) == old(Spans(s))[i := SpanOf(s[i].buf)]
  {
  }

  /** The pieces when those in front of `i` are done. */
  function Upto(v: seq<Span>, i: nat): (w: seq<Span>)
    requires i <= |v|
    ensures |w| == |v| && forall j :: i <= j < |v| ==> w[j] == v[j]
  {
    Emptied(v[..i]) + v[i..]
  }

  lemma ConsumedAt(v: seq<Span>, i: nat, n: nat)
    requires i <= |v|
    ensures i == |v| || n == 0 || n < v[i].last - v[i].pos ==>
      && Resume(v[i..], n) == 0
      && Emptied(v[..i]) + Consumed(v[i..], n) == (if i == |v| || n == 0 then Upto(v, i) else Upto(v, i)[i := v[i].(pos := v[i].pos + n)])
    ensures i < |v| ==> Upto(v, i)[i := Span(v[i].last, v[i].last)] == Upto(v, i + 1)
  {
    if i < |v| {
      assert v[i..][0] == v[i] && v[i..][1..] == v[i + 1..];
      assert Emptied(v[..i + 1]) == Emptied(v[..i]) + [Span(v[i].last, v[i].last)];
    }
  }

  lemma UptoStart(v: seq<Span>)
    ensures Upto(v, 0) == v && v[0..] == v && Emptied(v[..0]) == []
  {
  }

  lemma NextOf(l: Chain?, s: seq<Chain>, i: nat)
    requires Links(l, s) && i < |s|
    ensures s[i].next == Start(s, i + 1) && Start(s, i) == s[i] && s[i] in s
  {
  }

  /** Moves the write position of link `i`. */
  method SetPos(b: Buffer, pos: nat, ghost l: Chain?, ghost s: seq<Chain>, ghost i: nat)
    requires Links(l, s) && i < |s| && b == s[i].buf
    modifies b`pos
    ensures Spans(s) == old(Spans(s))[i := Span(pos, old(b.last))]
  {
    b.pos := pos;
    SpanStored(s, i);
  }

  /** Link `a` is where to go on after `n` of the bytes of `v` are gone and `u` is left: behind it
      nothing was touched, and the last byte gone was in it or in the link before it. */
  ghost predicate Tight(v: seq<Span>, u: seq<Span>, n: nat, a: nat)
  {
    && |u| == |v| && a <= |v| && (n == 0 ==> a == 0)
    && (forall i :: a < i < |v| ==> u[i] == v[i])
    && (a < |v| ==> v[a].pos <= u[a].pos && u[a].last == v[a].last)
    && (n > 0 && a < |v| ==> u[a].pos < u[a].last || (u[a] == v[a] && a > 0 && v[a - 1].pos < v[a - 1].last))
  }

  lemma {:induction false} ResumeTight(v: seq<Span>, n: nat)
    requires Ordered(v)
    ensures Tight(v, Consumed(v, n), n, Resume(v, n))
  {
    if v != [] && n > 0 {
      var k := v[0].last - v[0].pos;
      if n >= k {
        ResumeTight(v[1..], n - k);
      }
    }
  }

  lemma TightStart(v: seq<Span>)
    ensures Tight(v, v, 0, 0)
  {
  }

  lemma TightSame(v: seq<Span>, u: seq<Span>, u': seq<Span>, n: nat, a: nat)
    requires Tight(v, u, n, a) && |u'| == |u| && u'[a..] == u[a..]
    ensures Tight(v, u', n, a)
  {
    assert forall i :: a <= i < |u| ==> u[i] == u[a..][i - a] && u'[i] == u'[a..][i - a];
  }

  lemma TightAfter(v: seq<Span>, u: seq<Span>, u': seq<Span>, n: nat, a: nat, k: nat, b: nat)
    requires Tight(v, u, n, a) && |u'| == |u| && Tight(u[a..], u'[a..], k, b) && k > 0
    ensures Tight(v, u', n + k, a + b)
  {
    assert forall i :: a <= i < |u| ==> u[i] == u[a..][i - a] && u'[i] == u'[a..][i - a];
  }

  /** chain_write_update: `size` bytes are written; the link to go on with. */
  method WriteUpdate(l: Chain?, size: nat, ghost s: seq<Chain>) returns (r: Chain?)
    requires Links(l, s) && Ordered(Spans(s))
    modifies Bufs(s)
    ensures Spans(s) == Consumed(old(Spans(s)), size) && r == Start(s, Resume(old(Spans(s)), size))
  {
    hide Consumed, Resume, Emptied, Spans, Upto, Links;
    ghost var v := Spans(s);
    ghost var i := 0;
    var n: nat := size;
    r := l;
    UptoStart(v);
    assert r == Start(s, 0) by { StartOf(l, s); }
    while r != null && n > 0
      invariant 0 <= i <= |s| && r == Start(s, i) && Spans(s) == Upto(v, i)
      invariant Consumed(v, size) == Emptied(v[..i]) + Consumed(v[i..], n) && Resume(v, size) == i + Resume(v[i..], n)
      decreases |s| - i
    {
      NextOf(l, s, i);
      assert SpanOf(s[i].buf) == v[i];
      var bsize := r.buf.last - r.buf.pos;
      ConsumedAt(v, i, n);
      if n < bsize {
        SetPos(r.buf, r.buf.pos + n, l, s, i);
        return;
      }
      ConsumedStep(v, i, n);
      n := n - bsize;
      SetPos(r.buf, r.buf.last, l, s, i);
      r := r.next;
      i := i + 1;
    }
    ConsumedAt(v, i, n);
  }

  lemma StartOf(l: Chain?, s: seq<Chain>)
    requires Links(l, s)
    ensures l == Start(s, 0)
  {
  }

  /** chain_size: the number of bytes still to be written. */
  method ChainSize(l: Chain?, m: Memory, ghost s: seq<Chain>) returns (len: nat)
    requires Links(l, s) && Inside(m, Spans(s))
    ensures len == |Bytes(m, Spans(s))|
  {
    hide Links, Spans, Bytes;
    ghost var v, i := Spans(s), 0;
    var r := l;
    len := 0;
    StartOf(l, s);
    assert v[0..] == v;
    while r != null
      invariant 0 <= i <= |s| && r == Start(s, i) && Inside(m, v[i..]) && Spans(s) == v
      invariant len + |Bytes(m, v[i..])| == |Bytes(m, v)|
      decreases |s| - i
    {
      NextOf(l, s, i);
      InsideTail(m, v[i..]);
      assert v[i..][0] == SpanOf(s[i].buf) && v[i..][1..] == v[i + 1..];
      len := len + (r.buf.last - r.buf.pos);
      r := r.next;
      i := i + 1;
    }
    NoBytes(m, v[i..]);
  }

  lemma NoBytes(m: Memory, v: seq<Span>)
    requires Inside(m, v) && v == []
    ensures Bytes(m, v) == []
  {
  }

  // ---------- packing ----------

  datatype Option = None | Some(value: nat)

  /** The pieces `out` hold the first `done` bytes of `v`; unless the limit is reached, `rest`
      holds the others. */
  ghost predicate Packing(m: Memory, v: seq<Span>, out: seq<Span>, rest: seq<Span>, done: int, full: bool)
    requires Inside(m, v)
  {
    && Inside(m, out) && Inside(m, rest)
    && |Bytes(m, out)| == done && Bytes(m, out) <= Bytes(m, v)
    && (full || Bytes(m, v) == Bytes(m, out) + Bytes(m, rest))
    && (out != [] <==> done > 0)
  }

  lemma PackingStarts(m: Memory, v: seq<Span>)
    requires Inside(m, v)
    ensures Packing(m, v, [], v, 0, false)
  {
    NoBytes(m, []);
  }

  lemma PackingSkips(m: Memory, v: seq<Span>, out: seq<Span>, rest: seq<Span>, done: int)
    requires Inside(m, v) && Packing(m, v, out, rest, done, false) && rest != [] && rest[0].last <= rest[0].pos
    ensures Packing(m, v, out, rest[1..], done, false)
  {
    hide Bytes, Inside;
    InsideTail(m, rest);
    assert m[rest[0].pos..rest[0].last] == [];
  }

  lemma PackingTakes(m: Memory, v: seq<Span>, out: seq<Span>, rest: seq<Span>, done: int, end: nat, full: bool)
    requires Inside(m, v) && Packing(m, v, out, rest, done, false)
    requires rest != [] && rest[0].pos < end <= rest[0].last && (full || end == rest[0].last)
    ensures Packing(m, v, out + [Span(rest[0].pos, end)], rest[1..], done + end - rest[0].pos, full)
  {
    hide Bytes, Inside;
    Packed(m, v, out, rest, end);
  }

  lemma PackingEnds(m: Memory, v: seq<Span>, out: seq<Span>, rest: seq<Span>, done: int, full: bool)
    requires Inside(m, v) && Packing(m, v, out, rest, done, full)
    ensures 0 <= done <= |Bytes(m, v)| && Inside(m, out) && Bytes(m, out) == Bytes(m, v)[..done]
    ensures rest == [] && !full ==> done == |Bytes(m, v)|
    ensures out != [] <==> done > 0
  {
    hide Inside;
    if rest == [] {
      NoBytes(m, rest);
    }
  }

  /** sysio_pack_chain_to_iovs: the next pending bytes, at most `limit - packed` of them, as
      pieces of memory in `iovs`.  It stops early only when `iovs` is full. */
  method Pack(iovs: array<Span>, l: Chain?, packed: nat, limit: nat, m: Memory, ghost s: seq<Chain>)
    returns (count: nat, packed': nat)
    requires Links(l, s) && Sound(m, Spans(s)) && packed < limit && iovs.Length > 0
    modifies iovs
    ensures count <= iovs.Length && packed <= packed' <= limit && Inside(m, iovs[..count])
    ensures packed' - packed <= |Bytes(m, Spans(s))| && Bytes(m, iovs[..count]) == Bytes(m, Spans(s))[..packed' - packed]
    ensures count == iovs.Length || packed' == limit || packed' - packed == |Bytes(m, Spans(s))|
    ensures count == 0 <==> Bytes(m, Spans(s)) == []
    ensures count > 0 ==> packed' > packed
  {
    hide Links, Spans, Bytes, Apart, Packing;
    ghost var v := Spans(s);
    ghost var i, j := 0, 0;
    var r, lastPos := l, None;
    count, packed' := 0, packed;
    StartOf(l, s);
    PackingStarts(m, v);
    assert v[0..] == v && iovs[..0] == [];
    while r != null && count < iovs.Length && packed' < limit
      invariant 0 <= i <= |s| && r == Start(s, i) && Spans(s) == v && count <= iovs.Length && packed <= packed' <= limit
      invariant Packing(m, v, iovs[..count], v[i..], packed' - packed, packed' == limit)
      invariant lastPos.None? || (0 <= j < i && lastPos.value == v[j].pos && v[j].pos < v[j].last)
      decreases |s| - i
    {
      NextOf(l, s, i);
      var pos, size := r.buf.pos, r.buf.last - r.buf.pos;
      assert v[i..][0] == v[i] == SpanOf(s[i].buf) && v[i..][1..] == v[i + 1..];
      if size <= 0 {
        PackingSkips(m, v, iovs[..count], v[i..], packed' - packed);
      } else {
        if packed' + size > limit {
          size := limit - packed';
        }
        if lastPos == Some(pos) {
          NotShared(m, v, j, i);
          assert false;  // no other buffer starts at the same address
        }
        ghost var before := iovs[..count];
        iovs[count] := Span(pos, pos + size);
        assert iovs[..count + 1] == before + [Span(pos, pos + size)];
        PackingTakes(m, v, before, v[i..], packed' - packed, pos + size, packed' + size == limit);
        count := count + 1;
        packed' := packed' + size;
        lastPos := Some(pos);
        j := i;
      }
      r := r.next;
      i := i + 1;
    }
    PackingEnds(m, v, iovs[..count], v[i..], packed' - packed, packed' == limit);
  }

  /** Buffers with something to write start at different addresses. */
  lemma NotShared(m: Memory, v: seq<Span>, i: nat, j: nat)
    requires Sound(m, v) && i < j < |v| && v[i].pos < v[i].last && v[j].pos < v[j].last
    ensures v[i].pos != v[j].pos
  {
    assert Apart(v[i], v[j]);
  }

  /** One more piece, cut at `end`. */
  lemma Packed(m: Memory, v: seq<Span>, before: seq<Span>, rest: seq<Span>, end: nat)
    requires Inside(m, v) && Inside(m, before) && Inside(m, rest) && rest != []
    requires Bytes(m, v) == Bytes(m, before) + Bytes(m, rest) && rest[0].pos <= end <= rest[0].last
    ensures var after := before + [Span(rest[0].pos, end)];
      && Inside(m, after) && |Bytes(m, after)| == |Bytes(m, before)| + end - rest[0].pos
      && Bytes(m, after) <= Bytes(m, v)
      && Inside(m, rest[1..]) && (end == rest[0].last ==> Bytes(m, v) == Bytes(m, after) + Bytes(m, rest[1..]))
  {
    hide Bytes, Inside;
    var a, x := rest[0], Span(rest[0].pos, end);
    InsideTail(m, rest);
    BytesOne(m, x);
    BytesConcat(m, before, [x]);
    TakeSlice(m, a.pos, a.last, end);
    PrefixPart(Bytes(m, before), m[a.pos..a.last], Bytes(m, rest[1..]), end - a.pos);
  }

  lemma TakeSlice<T>(m: seq<T>, i: nat, j: nat, k: nat)
    requires i <= k <= j <= |m|
    ensures m[i..k] == m[i..j][..k - i]
  {
  }

  lemma PrefixPart<T>(a: seq<T>, b: seq<T>, c: seq<T>, k: nat)
    requires k <= |b|
    ensures a + b[..k] <= a + (b + c)
    ensures k == |b| ==> a + (b + c) == (a + b[..k]) + c
  {
  }

  // ---------- writing ----------

  const AGAIN := -2
  const ERROR := -1

  /** A call of sysio_writev_iovs: the number of bytes it offers, and the answer. */
  datatype Call = Call(offered: nat, answer: int)

  /** What errno says after a failed system call. */
  datatype Errno = NoError | Interrupted | NotReady | OtherError

  /** What the kernel answered. */
  datatype Answer = Answer(rc: int, errno: Errno)

  /** A connection; `written` is what the kernel has accepted on it, in the calls so far, and
      `answers` is what it answered.  The kernel interrupts calls on it at most `interrupts` more times. */
  class Conn {
    var sent: nat
    var ready: bool
    var interrupts: nat
    ghost var written: seq<bv8>
    ghost var calls: seq<Call>
    ghost var answers: seq<Answer>

    constructor (interrupts: nat)
    {
      this.interrupts, sent, ready, written, calls, answers := interrupts, 0, true, [], [], [];
    }
  }

  ghost function Offered(calls: seq<Call>): nat
  {
    if calls == [] then 0 else Offered(calls[..|calls| - 1]) + calls[|calls| - 1].offered
  }

  lemma OfferedMore(calls: seq<Call>, x: Call)
    ensures Offered(calls + [x]) == Offered(calls) + x.offered
  {
    assert (calls + [x])[..|calls|] == calls;
  }

  /** The last of the calls was answered so. */
  ghost predicate Answered(calls: seq<Call>, answer: int)
  {
    calls != [] && calls[|calls| - 1].answer == answer
  }

  /** What a caller of sysio_writev_iovs sees of answers of which all but the last one say that the
      call was interrupted. */
  ghost predicate SeenAs(answers: seq<Answer>, rc: int)
  {
    && answers != [] && (forall i :: 0 <= i < |answers| - 1 ==> answers[i] == Answer(-1, Interrupted))
    && var last := answers[|answers| - 1];
      last.errno != Interrupted && rc == if last.rc > 0 then last.rc else if last.errno == NotReady then AGAIN else ERROR
  }

  /** The system call: the kernel accepts a front of the bytes, possibly nothing, or fails. */
  method SystemWritev(c: Conn, m: Memory, iovs: array<Span>, count: nat, size: nat) returns (rc: int, errno: Errno)
    requires 0 < count <= iovs.Length && Inside(m, iovs[..count]) && size == |Bytes(m, iovs[..count])|
    modifies c`written, c`interrupts, c`answers
    ensures c.answers == old(c.answers) + [Answer(rc, errno)]
    ensures -1 <= rc <= size && (errno == NoError <==> rc >= 0)
    ensures c.written == old(c.written) + if rc > 0 then Bytes(m, iovs[..count])[..rc] else []
    ensures c.interrupts == old(c.interrupts) - if errno == Interrupted then 1 else 0
  {
    rc :| -1 <= rc <= size;
    errno := NoError;
    if rc == -1 {
      errno :| errno != NoError && (errno == Interrupted ==> c.interrupts > 0);
      if errno == Interrupted {
        c.interrupts := c.interrupts - 1;
      }
    } else if rc > 0 {
      c.written := c.written + Bytes(m, iovs[..count])[..rc];
    }
    c.answers := c.answers + [Answer(rc, errno)];
  }

  /** sysio_writev_iovs: interrupted calls are repeated; a count is passed on, a kernel that is not
      ready is AGAIN, and every other answer, zero included, is ERROR. */
  method Writev(c: Conn, m: Memory, iovs: array<Span>, count: nat, size: nat) returns (rc: int)
    requires 0 < count <= iovs.Length && Inside(m, iovs[..count]) && size == |Bytes(m, iovs[..count])| && size > 0
    modifies c`written, c`calls, c`interrupts, c`answers
    ensures |c.answers| > |old(c.answers)| && c.answers[..|old(c.answers)|] == old(c.answers)
    ensures SeenAs(c.answers[|old(c.answers)|..], rc)
    ensures rc == AGAIN || rc == ERROR || 0 < rc <= size
    ensures c.written == old(c.written) + if rc > 0 then Bytes(m, iovs[..count])[..rc] else []
    ensures c.calls == old(c.calls) + [Call(size, rc)]
  {
    hide Inside, Bytes;
    ghost var before, since := c.answers, [];
    while true
      invariant c.written == old(c.written) && c.calls == old(c.calls) && c.answers == before + since
      invariant forall i :: 0 <= i < |since| ==> since[i] == Answer(-1, Interrupted)
      decreases c.interrupts
    {
      var errno;
      rc, errno := SystemWritev(c, m, iovs, count, size);
      since := since + [Answer(rc, errno)];
      if rc > 0 {
        break;
      }
      if rc == -1 {
        if errno == Interrupted {
          continue;
        }
        rc := if errno == NotReady then AGAIN else ERROR;
        break;
      }
      rc := ERROR;
      break;
    }
    c.calls := c.calls + [Call(size, rc)];
  }

  lemma {:induction false} SpansFrom(s: seq<Chain>, k: nat)
    requires k <= |s|
    ensures Spans(s)[k..] == Spans(s[k..])
  {
  }

  lemma LinksFrom(l: Chain?, s: seq<Chain>, k: nat)
    requires Links(l, s) && k <= |s|
    ensures Links(Start(s, k), s[k..])
  {
    var t := s[k..];
    forall i | 0 <= i < |t| ensures t[i].next == Start(t, i + 1) {
      assert t[i] == s[k + i] && s[k + i].next == Start(s, k + i + 1);
    }
  }

  /** The links from `a` on are what is left after writing the `n` bytes in front of them. */
  ghost predicate Advanced(m: Memory, v: seq<Span>, s: seq<Chain>, n: nat, a: nat)
    reads Bufs(s)
  {
    && Inside(m, v) && a <= |s| && Bufs(s[a..]) <= Bufs(s) && Sound(m, Spans(s)) && Sound(m, Spans(s[a..])) && n <= |Bytes(m, v)|
    && Bytes(m, Spans(s)) == Bytes(m, v)[n..] == Bytes(m, Spans(s[a..]))
    && forall i :: 0 <= i < a ==> s[i].buf.pos == s[i].buf.last
  }

  lemma AdvancedBy(m: Memory, v: seq<Span>, s: seq<Chain>, n: nat)
    requires Sound(m, v) && n <= |Bytes(m, v)| && Spans(s) == Consumed(v, n)
    ensures Advanced(m, v, s, n, Resume(v, n))
  {
    hide Spans, Bytes, Consumed, Resume;
    var k, w := Resume(v, n), Spans(s);
    ConsumedBytes(m, v, n);
    ConsumedSound(m, v, n);
    ConsumedFront(v, n);
    SkipEmpty(m, w, k);
    SpansFrom(s, k);
    forall i | 0 <= i < k ensures s[i].buf.pos == s[i].buf.last {
      assert w[i] == SpanOf(s[i].buf);
    }
    assert forall i :: 0 <= i < |w[k..]| ==> w[k..][i] == w[k + i];
  }

  /** One turn of the loop: pack, write, update. */
  method WriteOnce(c: Conn, l: Chain?, packed: nat, limit: nat, iovs: array<Span>, m: Memory, ghost s: seq<Chain>)
    returns (rc: int, r: Chain?, packed': nat, ghost a: nat)
    requires Links(l, s) && Sound(m, Spans(s)) && packed < limit && iovs.Length > 0
    modifies c`sent, c`written, c`calls, c`interrupts, c`answers, iovs, Bufs(s)
    ensures packed <= packed' <= limit && (rc > 0 ==> rc <= packed' - packed)
    ensures c.calls == old(c.calls) + if rc == 0 then [] else [Call(packed' - packed, rc)]
    ensures if rc > 0 then Advanced(m, old(Spans(s)), s, rc, a) && r == Start(s, a) && Tight(old(Spans(s)), Spans(s), rc, a)
            else r == l && Spans(s) == old(Spans(s)) && (rc == 0 || rc == AGAIN || rc == ERROR)
    ensures rc == 0 ==> old(Bytes(m, Spans(s))) == []
    ensures c.sent == old(c.sent) + if rc > 0 then rc else 0
    ensures c.written == old(c.written) + if rc > 0 then old(Bytes(m, Spans(s)))[..rc] else []
  {
    hide Tight, Links, Spans, Bytes, Sound, Inside, Ordered, Consumed, Resume, Advanced;
    ghost var v := Spans(s);
    SoundInside(m, v);
    var count;
    count, packed' := Pack(iovs, l, packed, limit, m, s);
    r, a := l, 0;
    if count == 0 {
      return 0, l, packed', 0;
    }
    rc := Writev(c, m, iovs, count, packed' - packed);
    if rc > 0 {
      TakeTake(Bytes(m, v), packed' - packed, rc);
      c.sent := c.sent + rc;
      a := Resume(v, rc);
      r := WriteUpdate(l, rc, s);
      AdvancedBy(m, v, s, rc);
      ResumeTight(v, rc);
    }
  }

  lemma SoundInside(m: Memory, v: seq<Span>)
    requires Sound(m, v)
    ensures Inside(m, v) && Ordered(v)
  {
  }

  lemma TakeTake<T>(s: seq<T>, n: nat, k: nat)
    requires k <= n <= |s|
    ensures s[..n][..k] == s[..k]
  {
  }

  /** The links have nothing left. */
  ghost predicate Empty(m: Memory, s: seq<Chain>)
    reads Bufs(s)
  {
    forall i :: 0 <= i < |s| ==> s[i].buf.pos == s[i].buf.last <= |m|
  }

  lemma FrontApart(l: Chain?, s: seq<Chain>, a: nat)
    requires Links(l, s) && a <= |s|
    ensures Bufs(s[..a]) !! Bufs(s[a..]) && Bufs(s[a..]) <= Bufs(s) && Bufs(s[..a]) <= Bufs(s)
  {
    assert forall j :: 0 <= j < |s| - a ==> s[a..][j] == s[a + j];
    assert forall i :: 0 <= i < a ==> s[..a][i] == s[i];
  }

  /** Links with nothing left in front of a chain that advanced. */
  lemma AdvancedAfter(m: Memory, v: seq<Span>, s: seq<Chain>, k: nat, j: nat, w: seq<Span>, n: nat, a: nat)
    requires Inside(m, v) && Inside(m, w) && k <= |Bytes(m, v)| && Bytes(m, w) == Bytes(m, v)[k..]
    requires j <= |s| && Empty(m, s[..j]) && Advanced(m, w, s[j..], n, a)
    ensures Advanced(m, v, s, k + n, j + a) && Empty(m, s[..j + a])
  {
    hide Spans, Bytes;
    var t, u := s[j..], Spans(s);
    SpansFrom(s, j);
    assert t[a..] == s[j + a..];
    forall i | 0 <= i < |u| ensures u[i].pos <= u[i].last <= |m| {
      assert u[i] == SpanOf(s[i].buf);
      assert i >= j ==> u[i] == Spans(t)[i - j];
    }
    forall i, i' | 0 <= i < i' < |u| ensures Apart(u[i], u[i']) {
      assert u[i] == SpanOf(s[i].buf);
      assert i >= j ==> u[i] == Spans(t)[i - j] && u[i'] == Spans(t)[i' - j];
    }
    assert forall i :: 0 <= i < j ==> s[..j][i] == s[i];
    forall i | 0 <= i < j + a ensures s[i].buf.pos == s[i].buf.last <= |m| {
      assert u[i] == SpanOf(s[i].buf);
      assert i >= j ==> t[i - j] == s[i];
    }
    assert forall i :: 0 <= i < j ==> u[i] == SpanOf(s[i].buf);
    SkipEmpty(m, u, j);
    DropDrop(Bytes(m, v), k, n);
  }

  lemma DropDrop<T>(s: seq<T>, k: nat, n: nat)
    requires k + n <= |s|
    ensures s[k..][n..] == s[k + n..]
    ensures s[..k] + s[k..][..n] == s[..k + n]
  {
  }

  datatype Rest = Rest(chain: Chain?) | Failed

  /** The kernel has accepted the first `k` bytes of the pieces. */
  ghost predicate Accepted(m: Memory, v: seq<Span>, k: nat, before: seq<bv8>, after: seq<bv8>)
  {
    Inside(m, v) && k <= |Bytes(m, v)| && after == before + Bytes(m, v)[..k]
  }

  lemma AcceptedNothing(m: Memory, v: seq<Span>, before: seq<bv8>)
    requires Inside(m, v)
    ensures Accepted(m, v, 0, before, before)
  {
  }

  lemma AcceptedMore(m: Memory, v: seq<Span>, k: nat, before: seq<bv8>, mid: seq<bv8>, w: seq<Span>, n: nat)
    requires Accepted(m, v, k, before, mid) && Inside(m, w) && Bytes(m, w) == Bytes(m, v)[k..] && n <= |Bytes(m, w)|
    ensures Accepted(m, v, k + n, before, mid + Bytes(m, w)[..n])
  {
    hide Bytes, Inside;
    DropDrop(Bytes(m, v), k, n);
    assert before + (Bytes(m, v)[..k] + Bytes(m, w)[..n]) == (before + Bytes(m, v)[..k]) + Bytes(m, w)[..n];
  }

  ghost predicate NothingLeft(m: Memory, s: seq<Chain>)
    reads Bufs(s)
  {
    Inside(m, Spans(s)) && Bytes(m, Spans(s)) == []
  }

  /** After `k` of the bytes of the pieces `v`, the links from `a` on are left. */
  ghost predicate Progress(c: Conn, m: Memory, v: seq<Span>, s: seq<Chain>, k: nat, a: nat, sent: nat, written: seq<bv8>)
    reads c, Bufs(s)
  {
    && Advanced(m, v, s, k, a) && Tight(v, Spans(s), k, a) && a <= |s| && Bufs(s[..a]) <= Bufs(s) && Empty(m, s[..a])
    && c.sent == sent + k && Accepted(m, v, k, written, c.written)
  }

  lemma ProgressStart(c: Conn, m: Memory, l: Chain?, s: seq<Chain>)
    requires Links(l, s) && Sound(m, Spans(s))
    ensures Progress(c, m, Spans(s), s, 0, 0, c.sent, c.written) && l == Start(s, 0)
  {
    hide Tight, Links, Sound, Advanced, Accepted;
    TightStart(Spans(s));
    NotYetAdvanced(m, s);
    SoundInside(m, Spans(s));
    AcceptedNothing(m, Spans(s), c.written);
    StartOf(l, s);
  }

  /** One turn of the loop of sysio_writev_chain. */
  method Turn(c: Conn, p: Chain?, packed: nat, most: nat, iovs: array<Span>, m: Memory, ghost l: Chain?,
    ghost s: seq<Chain>, ghost v: seq<Span>, ghost k: nat, ghost a: nat, ghost sent: nat, ghost written: seq<bv8>)
    returns (rc: int, q: Chain?, packed': nat, ghost k': nat, ghost a': nat)
    requires Links(l, s) && Progress(c, m, v, s, k, a, sent, written) && p == Start(s, a)
    requires k <= packed < most && iovs.Length > 0
    modifies c`sent, c`written, c`calls, c`interrupts, c`answers, iovs, Bufs(s)
    ensures Progress(c, m, v, s, k', a', sent, written) && q == Start(s, a')
    ensures packed <= packed' <= most && k' <= packed' && (rc > 0 ==> packed < packed')
    ensures c.calls == old(c.calls) + if rc == 0 then [] else [Call(packed' - packed, rc)]
    ensures rc == 0 ==> NothingLeft(m, s) && k' == k
    ensures rc >= 0 || rc == AGAIN || rc == ERROR
  {
    hide Tight, Links, Spans, Bytes, Sound, Advanced, Empty, Accepted, NothingLeft, Inside;
    ghost var t := s[a..];
    LinksFrom(l, s, a);
    FrontApart(l, s, a);
    Remaining(m, v, s, k, a);
    ghost var w, before := Spans(t), c.written;
    ghost var u := Spans(s);
    SpansFrom(s, a);
    ghost var b;
    rc, q, packed', b := WriteOnce(c, p, packed, most, iovs, m, t);
    SpansFrom(s, a);
    if rc > 0 {
      TightAfter(v, u, Spans(s), k, a, rc, b);
      AdvancedAfter(m, v, s, k, a, w, rc, b);
      AdvancedCount(m, w, t, rc, b);
      AcceptedMore(m, v, k, written, before, w, rc);
      StartFrom(s, a, b);
      k', a' := k + rc, a + b;
      FrontApart(l, s, a');
    } else {
      TightSame(v, u, Spans(s), k, a);
      k', a' := k, a;
      assert c.written == before;
      SameAdvanced(m, v, s, k, a, w);
      if rc == 0 {
        NothingLeftIs(m, s);
      }
    }
  }

  /** sysio_writev_chain: `k` bytes are written; the bytes written and those still pending, in
      the links from `a` on, are together the bytes that were pending.  `calls` are the calls of
      writev: a call is followed by another one only when it wrote something, they offer no more
      than the limit, and they end only at the limit, at an answer that is no count, or when
      nothing is left. */
  method WritevChain(c: Conn, l: Chain?, limit: nat, m: Memory, ghost s: seq<Chain>)
    returns (r: Rest, ghost k: nat, ghost a: nat, ghost calls: seq<Call>)
    requires Links(l, s) && Sound(m, Spans(s))
    modifies c, Bufs(s)
    ensures Progress(c, m, old(Spans(s)), s, k, a, old(c.sent), old(c.written))
    ensures c.calls == old(c.calls) + calls && k <= Offered(calls) <= 2147479552
    ensures 0 < limit ==> Offered(calls) <= limit
    ensures forall i :: 0 <= i < |calls| - 1 ==> calls[i].answer > 0
    ensures r.Failed? <==> Answered(calls, ERROR)
    ensures c.ready <==> old(c.ready) && !Answered(calls, AGAIN)
    ensures r.Failed? || r.chain == Start(s, a) || (r.chain == null && NothingLeft(m, s))
    ensures !old(c.ready) ==> calls == []
    ensures old(c.ready) && r.Rest? && c.ready && !NothingLeft(m, s) ==>
      Offered(calls) == if 0 < limit <= 2147479552 then limit else 2147479552
  {
    hide Tight, Links, Spans, Bytes, Sound, Advanced, Empty, Accepted, NothingLeft, Progress, Offered;
    ghost var v := Spans(s);
    ProgressStart(c, m, l, s);
    k, a, calls := 0, 0, [];
    assert Offered([]) == 0 by { NothingOffered(); }
    if l == null {
      ProgressRemaining(c, m, v, s, 0, 0, c.sent, c.written);
      return Rest(null), 0, 0, [];
    }
    if !c.ready {
      return Rest(l), 0, 0, [];
    }
    var most := limit;
    if most == 0 || most > MAX_LIMIT {
      most := MAX_LIMIT;
    }
    var iovs := new Span[IOVS_MAX](i => Span(0, 0));
    var p, packed := l, 0;
    while p != null && packed < most
      invariant Progress(c, m, v, s, k, a, old(c.sent), old(c.written)) && p == Start(s, a) && k <= packed <= most
      invariant c.ready && c.calls == old(c.calls) + calls && Offered(calls) == packed
      invariant forall i :: 0 <= i < |calls| ==> calls[i].answer > 0
      decreases most - packed
    {
      var rc, q;
      ghost var before := packed;
      rc, q, packed, k, a := Turn(c, p, packed, most, iovs, m, l, s, v, k, a, old(c.sent), old(c.written));
      if rc == 0 {
        return Rest(null), k, a, calls;
      }
      OfferedMore(calls, Call(packed - before, rc));
      calls := calls + [Call(packed - before, rc)];
      if rc == AGAIN {
        SetReady(c, m, v, s, k, a, old(c.sent), old(c.written));
        return Rest(q), k, a, calls;
      }
      if rc == ERROR {
        return Failed, k, a, calls;
      }
      p := q;
    }
    if p == null {
      ProgressRemaining(c, m, v, s, k, a, old(c.sent), old(c.written));
    }
    r := Rest(p);
  }

  lemma NothingOffered()
    ensures Offered([]) == 0
  {
  }

  /** The connection waits for the next write event. */
  method SetReady(c: Conn, m: Memory, ghost v: seq<Span>, ghost s: seq<Chain>, ghost k: nat, ghost a: nat, ghost sent: nat, ghost written: seq<bv8>)
    requires Progress(c, m, v, s, k, a, sent, written)
    modifies c`ready
    ensures !c.ready && Progress(c, m, v, s, k, a, sent, written)
  {
    hide Tight, Advanced, Accepted, Empty, Spans;
    c.ready := false;
  }

  lemma ProgressRemaining(c: Conn, m: Memory, v: seq<Span>, s: seq<Chain>, k: nat, a: nat, sent: nat, written: seq<bv8>)
    requires Progress(c, m, v, s, k, a, sent, written) && Start(s, a) == null
    ensures NothingLeft(m, s)
  {
    hide Spans, Bytes, Advanced, Accepted, NothingLeft;
    Remaining(m, v, s, k, a);
    NothingAfter(m, s, a);
  }

  lemma NothingLeftIs(m: Memory, s: seq<Chain>)
    requires Inside(m, Spans(s)) && Bytes(m, Spans(s)) == []
    ensures NothingLeft(m, s)
  {
  }

  lemma StartFrom(s: seq<Chain>, a: nat, b: nat)
    requires a <= |s| && b <= |s| - a
    ensures Start(s[a..], b) == Start(s, a + b)
  {
  }

  lemma NotYetAdvanced(m: Memory, s: seq<Chain>)
    requires Sound(m, Spans(s))
    ensures Advanced(m, Spans(s), s, 0, 0) && Empty(m, s[..0])
  {
    assert s[0..] == s;
  }

  lemma Remaining(m: Memory, v: seq<Span>, s: seq<Chain>, k: nat, a: nat)
    requires Advanced(m, v, s, k, a)
    ensures Inside(m, v) && a <= |s| && k <= |Bytes(m, v)| && Sound(m, Spans(s[a..])) && Inside(m, Spans(s[a..]))
    ensures Bytes(m, Spans(s[a..])) == Bytes(m, v)[k..] && Inside(m, Spans(s)) && Bytes(m, Spans(s)) == Bytes(m, v)[k..]
  {
  }

  lemma AdvancedCount(m: Memory, v: seq<Span>, s: seq<Chain>, n: nat, a: nat)
    requires Advanced(m, v, s, n, a)
    ensures Inside(m, v) && n <= |Bytes(m, v)| && a <= |s|
  {
  }

  /** A turn that wrote nothing. */
  lemma SameAdvanced(m: Memory, v: seq<Span>, s: seq<Chain>, k: nat, a: nat, w: seq<Span>)
    requires Inside(m, v) && k <= |Bytes(m, v)| && a <= |s| && Empty(m, s[..a]) && Spans(s[a..]) == w && Sound(m, w)
    requires Inside(m, w) && Bytes(m, w) == Bytes(m, v)[k..]
    ensures Advanced(m, v, s, k, a) && Inside(m, Spans(s)) && Bytes(m, Spans(s)) == Bytes(m, w)
  {
    hide Bytes, Spans, Empty;
    assert s[a..][0..] == s[a..];
    AdvancedAfter(m, v, s, k, a, w, 0, 0);
  }

  lemma NothingAfter(m: Memory, s: seq<Chain>, a: nat)
    requires a <= |s| && Start(s, a) == null && Inside(m, Spans(s[a..])) && Inside(m, Spans(s))
    requires Bytes(m, Spans(s)) == Bytes(m, Spans(s[a..]))
    ensures NothingLeft(m, s)
  {
  }
}
