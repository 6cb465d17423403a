/** The two bounded output buffers: the ring that keeps the last bytes of a shell
    session, and the writer that keeps the first bytes of a program's output. */
module Buffers {
  import opened Wrappers

  function Flatten(chunks: seq<Bytes>): Bytes {
    if chunks == [] then [] else Flatten(chunks[..|chunks| - 1]) + chunks[|chunks| - 1]
  }

  // ---- the last bytes ----

  /** The last n elements, or all of them if there are fewer. */
  function Last(s: Bytes, n: nat): Bytes {
    if |s| <= n then s else s[|s| - n..]
  }

  lemma LastOfLast(s: Bytes, p: Bytes, n: nat)
    ensures Last(Last(s, n) + p, n) == Last(s + p, n)
  {
    if |s| > n {
      assert s + p == s[..|s| - n] + (Last(s, n) + p);
    }
  }

  /** What a buffer of size n holds after keeping the last bytes of one write after another. */
  function Kept(chunks: seq<Bytes>, n: nat): Bytes {
    if chunks == [] then [] else Last(Kept(chunks[..|chunks| - 1], n) + chunks[|chunks| - 1], n)
  }

  /** However the output was cut into writes, what is kept are the last bytes of the whole. */
  lemma {:induction false} ChunkingDoesNotMatter(chunks: seq<Bytes>, n: nat)
    ensures Kept(chunks, n) == Last(Flatten(chunks), n)
  {
    if chunks != [] {
      var before := chunks[..|chunks| - 1];
      ChunkingDoesNotMatter(before, n);
      LastOfLast(Flatten(before), chunks[|chunks| - 1], n);
    }
  }

  class RingBuffer {
    const data: array<byte>
    const size: nat
    var pos: nat
    ghost var history: Bytes

    /** Every byte among the last size ones sits at its position modulo size. */
    ghost predicate Valid()
      reads this, data
    {
      && size > 0 && data.Length == size && |history| == pos
      && (forall i | 0 <= i < pos && pos - size <= i :: data[i % size] == history[i])
    }

    ghost function Contents(): Bytes
      requires Valid()
      reads this, data
    {
      Last(history, size)
    }

    constructor (size: nat)
      requires size > 0
      ensures Valid() && fresh(data) && this.size == size && history == []
    {
      this.size := size;
      data := new byte[size](_ => 0);
      pos := 0;
      history := [];
    }

    method Write(p: Bytes) returns (n: nat)
      requires Valid()
      modifies this, data
      ensures Valid() && n == |p| && history == old(history) + p
      ensures Contents() == Last(old(Contents()) + p, size)
    {
      for k := 0 to |p|
        invariant Valid() && history == old(history) + p[..k]
      {
        ghost var before := data[..];
        forall i | 0 <= i < pos && pos - size < i
          ensures i % size != pos % size
        {
          DifferentCells(i, pos, size);
        }
        data[pos % size] := p[k];
        history := history + [p[k]];
        pos := pos + 1;
        assert forall i | 0 <= i < pos - 1 && pos - size <= i :: data[i % size] == before[i % size];
        assert p[..k + 1] == p[..k] + [p[k]];
      }
      assert p[..|p|] == p;
      LastOfLast(old(history), p, size);
      n := |p|;
    }

    method Read() returns (result: Bytes)
      requires Valid()
      ensures result == Contents()
    {
      if pos <= size {
        forall i | 0 <= i < pos
          ensures data[i] == history[i]
        {
          Cell(i);
        }
        return data[..pos];
      }
      var start := pos % size;
      result := data[start..] + data[..start];
      forall j | 0 <= j < size
        ensures result[j] == history[pos - size + j]
      {
        Cell(pos - size + j);
        Wrapped(pos, size, j);
      }
    }

    lemma Cell(i: nat)
      requires Valid() && i < pos && pos - size <= i
      ensures i % size < size && data[i % size] == history[i]
      ensures i < size ==> i % size == i
    {
      if i < size {
        Remainder(0, i, size);
      }
    }
  }

  /** Positions less than size apart use different cells. */
  lemma DifferentCells(i: nat, pos: nat, size: nat)
    requires size > 0 && i < pos < i + size
    ensures i % size != pos % size
  {
    var q, r, d := i / size, i % size, pos - i;
    assert i == q * size + r;
    if r + d < size {
      Remainder(q, r + d, size);
    } else {
      Remainder(q + 1, r + d - size, size);
      assert (q + 1) * size == q * size + size;
    }
  }

  /** The j-th oldest byte of a full ring is j cells after the next one to be written. */
  lemma Wrapped(pos: nat, size: nat, j: nat)
    requires 0 < size <= pos && j < size
    ensures (pos - size + j) % size == if j < size - pos % size then pos % size + j else j - (size - pos % size)
  {
    var q, r := pos / size, pos % size;
    assert pos == q * size + r;
    if j < size - r {
      Remainder(q - 1, r + j, size);
      assert pos - size + j == (q - 1) * size + (r + j);
    } else {
      Remainder(q, j - (size - r), size);
      assert pos - size + j == q * size + (j - (size - r));
    }
  }

  lemma Remainder(q: int, r: nat, size: nat)
    requires r < size
    ensures (q * size + r) % size == r
  {
    var n := q * size + r;
    assert n == (n / size) * size + n % size;
    var k := n / size - q;
    assert k * size == (n / size) * size - q * size;
    Multiples(k, size);
  }

  lemma Multiples(k: int, size: nat)
    requires size > 0
    ensures k >= 1 ==> k * size >= size
    ensures k <= -1 ==> k * size + size <= 0
  {
  }

  // ---- the first bytes ----

  function First(s: Bytes, n: nat): Bytes {
    if |s| <= n then s else s[..n]
  }

  function Room(max: int): nat {
    if max < 0 then 0 else max
  }

  /** A writer starts empty with a maximum. */
  datatype Writer = Writer(buf: Bytes, max: int, written: int, truncated: bool) {
    function Write(p: Bytes): Writer {
      var remaining := max - written;
      if truncated then this
      else if remaining <= 0 then this.(truncated := true)
      else if |p| > remaining then Writer(buf + p[..remaining], max, max, true)
      else Writer(buf + p, max, written + |p|, false)
    }
  }

  function AfterWrites(max: int, chunks: seq<Bytes>): Writer {
    if chunks == [] then Writer([], max, 0, false)
    else AfterWrites(max, chunks[..|chunks| - 1]).Write(chunks[|chunks| - 1])
  }

  /** Exactly the first max bytes are kept, and truncated is set exactly when a byte
      was lost or a write, even an empty one, arrived with no room left. */
  lemma {:induction false} WriterKeepsFirst(max: int, chunks: seq<Bytes>)
    ensures var w := AfterWrites(max, chunks);
            && w.buf == First(Flatten(chunks), Room(max))
            && w.max == max
            && (w.truncated <==> chunks != [] && (|Flatten(chunks)| > Room(max)
                                                  || |Flatten(chunks[..|chunks| - 1])| >= Room(max)))
            && (!w.truncated ==> w.written == |w.buf|)
  {
    if chunks != [] {
      var before, p := chunks[..|chunks| - 1], chunks[|chunks| - 1];
      WriterKeepsFirst(max, before);
      var w, h := AfterWrites(max, before), Flatten(before);
      if !w.truncated && |h| < Room(max) && |p| > max - w.written {
        assert (h + p)[..max] == h + p[..max - |h|];
      }
      if |h| >= Room(max) {
        assert First(h + p, Room(max)) == First(h, Room(max));
      }
      if before != [] {
        assert |Flatten(before)| >= |Flatten(before[..|before| - 1])|;
      }
    }
  }

  /** Any lost byte is reported; the converse fails only for writes that came too late to lose anything. */
  lemma LossIsReported(max: int, chunks: seq<Bytes>)
    ensures AfterWrites(max, chunks).buf != Flatten(chunks) ==> AfterWrites(max, chunks).truncated
    ensures AfterWrites(max, chunks).truncated && AfterWrites(max, chunks).buf == Flatten(chunks) ==>
              chunks[|chunks| - 1] == [] && |Flatten(chunks)| == Room(max)
  {
    WriterKeepsFirst(max, chunks);
  }

  class LimitedWriter {
    var buf: Bytes
    const max: int
    var written: int
    var truncated: bool

    ghost function Model(): Writer
      reads this
    {
      Writer(buf, max, written, truncated)
    }

    constructor (max: int)
      ensures Model() == AfterWrites(max, [])
    {
      buf, this.max, written, truncated := [], max, 0, false;
    }

    /** Reports every byte as written, so that the process producing them goes on. */
    method Write(p: Bytes) returns (n: nat)
      modifies this
      ensures n == |p| && Model() == old(Model()).Write(p)
    {
      n := |p|;
      if truncated {
        return;
      }
      var remaining := max - written;
      if remaining <= 0 {
        truncated := true;
        return;
      }
      if |p| > remaining {
        buf := buf + p[..remaining];
        written := max;
        truncated := true;
        return;
      }
      buf := buf + p;
      written := written + |p|;
    }
  }
}
