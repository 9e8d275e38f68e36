/**
 * The delimiter stream splitter (InputStreamSplitter): it cuts a byte stream
 * into records at every occurrence of a start delimiter, holding the bytes
 * it has read in a buffer that it shifts or enlarges as needed.
 *
 * A record runs from one delimiter occurrence up to the next one, so every
 * record but the first begins with the delimiter; the first record holds
 * the bytes before the first occurrence, and the last one the bytes after
 * the last occurrence. Which records come out is a function of the whole
 * stream only (`Tokens`), however the source hands its bytes over.
 */
module StreamSplitter {

  import opened JavaTypes

  /** Does `d` occur in `s` at index `i`? */
  ghost predicate MatchAt(s: seq<Byte>, d: seq<Byte>, i: int)
  {
    0 <= i && i + |d| <= |s| && s[i..i + |d|] == d
  }

  /** The first index at or after `from` where `d` occurs in `s`, or -1. */
  function FindFrom(s: seq<Byte>, d: seq<Byte>, from: nat): (r: int)
    decreases |s| - from
    ensures r == -1 || (from <= r && MatchAt(s, d, r))
    ensures r == -1 ==> forall i :: from <= i ==> !MatchAt(s, d, i)
    ensures r != -1 ==> forall i :: from <= i < r ==> !MatchAt(s, d, i)
  {
    if from + |d| > |s| then -1
    else if s[from..from + |d|] == d then from
    else FindFrom(s, d, from + 1)
  }

  /**
   * A search in the window `s[b..b + n]` of `s` finds what a search of `s`
   * itself finds, shifted by `b`, as long as it finds something or the window
   * reaches the end of `s`.
   */
  lemma {:induction false} FindInWindow(s: seq<Byte>, d: seq<Byte>, b: nat, n: nat, from: nat)
    requires b + n <= |s|
    ensures var w := FindFrom(s[b..b + n], d, from);
      && (w >= 0 ==> FindFrom(s, d, b + from) == b + w)
      && (w < 0 && b + n == |s| ==> FindFrom(s, d, b + from) == -1)
    decreases n - from
  {
    var win := s[b..b + n];
    if from + |d| > n {
      if b + n == |s| {
        assert b + from + |d| > |s|;
      }
    } else {
      assert win[from..from + |d|] == s[b + from..b + from + |d|] by {
        SliceOfSlice(s, b, b + n, from, from + |d|);
      }
      if win[from..from + |d|] != d {
        FindInWindow(s, d, b, n, from + 1);
      }
    }
  }

  lemma SliceOfSlice<T>(s: seq<T>, b: nat, c: nat, i: nat, j: nat)
    requires b <= c <= |s| && i <= j <= c - b
    ensures s[b..c][i..j] == s[b + i..b + j]
  {
    assert |s[b..c][i..j]| == j - i;
    forall k | 0 <= k < j - i
      ensures s[b..c][i..j][k] == s[b + i..b + j][k]
    {
    }
  }

  /** A window of `s` copied into `a` holds each sub-window of `s` at the same place. */
  lemma WindowSlice<T>(a: seq<T>, s: seq<T>, b: nat, n: nat, i: nat, j: nat)
    requires n <= |a| && b + n <= |s| && a[..n] == s[b..b + n] && i <= j <= n
    ensures a[i..j] == s[b + i..b + j]
  {
    assert a[i..j] == a[..n][i..j];
    SliceOfSlice(s, b, b + n, i, j);
  }

  /** Two splits of one sequence at the same place have the same halves. */
  lemma SameSplit<T>(a: seq<T>, b: seq<T>, x: seq<T>, y: seq<T>)
    requires a + b == x + y && |a| == |x|
    ensures a == x && b == y
  {
    assert a == (a + b)[..|a|] && x == (x + y)[..|x|];
    assert b == (a + b)[|a|..] && y == (x + y)[|x|..];
  }

  /**
   * What one search of the buffer's filled part tells about the stream whose
   * window it holds: a hit is the stream's next occurrence; a miss, when the
   * window reaches the end of the stream, means there is none.
   */
  lemma ProbeFacts(b: seq<Byte>, s: seq<Byte>, d: seq<Byte>, base: nat, last: nat, from: nat, e: int)
    requires |d| > 0 && from <= last <= |b| && base + last <= |s| && b[..last] == s[base..base + last]
    requires e == FindFrom(b[..last], d, from)
    ensures e >= 0 ==> base + e == FindFrom(s, d, base + from) && e + |d| <= last && b[e..e + |d|] == d
    ensures e < 0 && base + last == |s| ==> FindFrom(s, d, base + from) == -1
  {
    FindInWindow(s, d, base, last, from);
    if e >= 0 {
      SliceOfSlice(b, 0, last, e, e + |d|);
    }
  }

  /**
   * A chunk read from a source holding the rest of `s` extends the window
   * `head` of `s`, and the source then holds what follows the window.
   */
  lemma ReadExtends(s: seq<Byte>, base: nat, l0: nat, head: seq<Byte>, chunk: seq<Byte>, p0: seq<Byte>, p1: seq<Byte>)
    requires base + l0 <= |s| && head == s[base..base + l0]
    requires p0 == s[base + l0..] && p0 == chunk + p1
    ensures base + l0 + |chunk| <= |s|
    ensures head + chunk == s[base..base + l0 + |chunk|] && p1 == s[base + l0 + |chunk|..]
  {
    var l1 := l0 + |chunk|;
    assert |s| == base + l1 + |p1|;
    assert s[base + l0..] == s[base + l0..base + l1] + s[base + l1..];
    SameSplit(chunk, p1, s[base + l0..base + l1], s[base + l1..]);
    assert s[base..base + l1] == s[base..base + l0] + s[base + l0..base + l1];
  }

  /**
   * `indexOf(bytes, target, start, end)`: the least `i` with
   * `start <= i <= end - |target|` at which `target` occurs in `bytes`, or -1;
   * 0 when the target is empty.
   */
  method IndexOf(bytes: array<Byte>, target: seq<Byte>, start: nat, end: nat) returns (r: int)
    requires end <= bytes.Length
    ensures |target| == 0 ==> r == 0
    ensures |target| > 0 ==> r == FindFrom(bytes[..end], target, start)
    ensures |target| > 0 && r >= 0 ==>
      start <= r && MatchAt(bytes[..end], target, r) &&
      forall i :: start <= i < r ==> !MatchAt(bytes[..end], target, i)
    ensures |target| > 0 && r < 0 ==>
      r == -1 && forall i :: start <= i ==> !MatchAt(bytes[..end], target, i)
  {
    if |target| == 0 {
      return 0;
    }
    ghost var s := bytes[..end];
    var maxi := end - |target| + 1;
    var i := start;
    while i < maxi
      invariant start <= i
      invariant FindFrom(s, target, start) == FindFrom(s, target, i)
    {
      var j := 0;
      while j < |target| && bytes[i + j] == target[j]
        invariant 0 <= j <= |target|
        invariant bytes[i..i + j] == target[..j]
      {
        j := j + 1;
      }
      assert s[i..i + |target|] == bytes[i..i + |target|];
      if j == |target| {
        return i;
      }
      assert s[i..i + |target|][j] != target[j];
      i := i + 1;
    }
    r := -1;
  }

  /** The bytes of a sequence of chunks, one after the other. */
  ghost function Concat(chunks: seq<seq<Byte>>): seq<Byte>
  {
    if chunks == [] then [] else chunks[0] + Concat(chunks[1..])
  }

  /** Appending a chunk appends its bytes. */
  lemma {:induction false} ConcatSnoc(chunks: seq<seq<Byte>>, c: seq<Byte>)
    ensures Concat(chunks + [c]) == Concat(chunks) + c
  {
    if chunks != [] {
      ConcatSnoc(chunks[1..], c);
      assert (chunks + [c])[1..] == chunks[1..] + [c];
    }
  }

  /**
   * The byte source, as a queue of non-empty chunks: each chunk is what one
   * read can return at most; "bytes available" means "chunks remain".
   */
  class ChunkedSource {
    var chunks: seq<seq<Byte>>

    ghost predicate Valid()
      reads this
    {
      forall i :: 0 <= i < |chunks| ==> chunks[i] != []
    }

    /** The bytes the source has still to deliver. */
    ghost function Pending(): seq<Byte>
      reads this
    {
      Concat(chunks)
    }

    constructor (chunks: seq<seq<Byte>>)
      requires forall i :: 0 <= i < |chunks| ==> chunks[i] != []
      ensures Valid() && this.chunks == chunks
    {
      this.chunks := chunks;
    }

    /** `available()`: how many bytes one read can return right now. */
    function Available(): (n: nat)
      reads this
      requires Valid()
      ensures (n > 0) == (Pending() != [])
    {
      if chunks == [] then 0 else |chunks[0]|
    }

    /** `read(b, off, len)`: copy the next at most `len` bytes into `b[off..]`. */
    method Read(b: array<Byte>, off: nat, len: nat) returns (n: nat)
      requires Valid() && Available() > 0
      requires 0 < len && off + len <= b.Length
      modifies this, b
      ensures Valid()
      ensures 0 < n <= len
      ensures old(Pending()) == b[off..off + n] + Pending()
      ensures b[..off] == old(b[..off]) && b[off + n..] == old(b[off + n..])
    {
      var c := chunks[0];
      n := if |c| < len then |c| else len;
      forall i | 0 <= i < n {
        b[off + i] := c[i];
      }
      assert b[off..off + n] == c[..n];
      if n == |c| {
        chunks := chunks[1..];
      } else {
        chunks := [c[n..]] + chunks[1..];
        assert Concat(chunks) == c[n..] + Concat(chunks[1..]);
      }
    }
  }

  /** A record, as the stream offsets of its first byte and of the byte after it. */
  datatype Range = Range(start: int, end: int)

  /**
   * The records of `s` from the one starting at `start`, whose end is searched
   * from `from`: each ends where the delimiter next occurs, the next record
   * starting at that occurrence and searching past it; the last one ends with
   * the stream.
   */
  ghost function Tokens(s: seq<Byte>, d: seq<Byte>, start: int, from: nat): seq<Range>
    requires |d| > 0 && from <= |s|
    decreases |s| - from
  {
    var e := FindFrom(s, d, from);
    if e < 0 then [Range(start, |s|)]
    else [Range(start, e)] + Tokens(s, d, e, e + |d|)
  }

  /** The first record starts at `start` and the last one ends with the stream. */
  lemma {:induction false} TokensEnds(s: seq<Byte>, d: seq<Byte>, start: int, from: nat)
    requires |d| > 0 && from <= |s|
    ensures var t := Tokens(s, d, start, from);
      |t| > 0 && t[0].start == start && t[|t| - 1].end == |s|
    decreases |s| - from
  {
    var e := FindFrom(s, d, from);
    if e >= 0 {
      assert MatchAt(s, d, e);
      TokensEnds(s, d, e, e + |d|);
      var rest := Tokens(s, d, e, e + |d|);
      assert Tokens(s, d, start, from) == [Range(start, e)] + rest;
      assert (Tokens(s, d, start, from))[|rest|] == rest[|rest| - 1];
    }
  }

  /** No record ends before it starts. */
  lemma {:induction false} TokensOrdered(s: seq<Byte>, d: seq<Byte>, start: int, from: nat)
    requires |d| > 0 && from <= |s| && start <= from
    ensures forall i :: 0 <= i < |Tokens(s, d, start, from)| ==>
      Tokens(s, d, start, from)[i].start <= Tokens(s, d, start, from)[i].end
    decreases |s| - from
  {
    var e := FindFrom(s, d, from);
    if e >= 0 {
      TokensOrdered(s, d, e, e + |d|);
      var t' := Tokens(s, d, e, e + |d|);
      var t := [Range(start, e)] + t';
      assert Tokens(s, d, start, from) == t;
      forall i | 0 <= i < |t|
        ensures t[i].start <= t[i].end
      {
        if i == 0 {
          assert t[0] == Range(start, e) && start <= from <= e;
        } else {
          assert t[i] == t'[i - 1];
        }
      }
    }
  }

  /** The records tile the stream: each one ends where the next begins. */
  lemma {:induction false} TokensTile(s: seq<Byte>, d: seq<Byte>, start: int, from: nat)
    requires |d| > 0 && from <= |s|
    ensures var t := Tokens(s, d, start, from);
      forall i :: 0 < i < |t| ==> t[i - 1].end == t[i].start
    decreases |s| - from
  {
    var e := FindFrom(s, d, from);
    if e >= 0 {
      TokensTile(s, d, e, e + |d|);
      TokensEnds(s, d, e, e + |d|);
      var t' := Tokens(s, d, e, e + |d|);
      var t := [Range(start, e)] + t';
      assert Tokens(s, d, start, from) == t;
      forall i | 0 < i < |t|
        ensures t[i - 1].end == t[i].start
      {
        if i == 1 {
          assert t[1] == t'[0];
        } else {
          assert t[i] == t'[i - 1] && t[i - 1] == t'[i - 2];
        }
      }
    }
  }

  /** Every record after the first begins with an occurrence of the delimiter. */
  lemma {:induction false} TokensDelimited(s: seq<Byte>, d: seq<Byte>, start: int, from: nat)
    requires |d| > 0 && from <= |s|
    ensures var t := Tokens(s, d, start, from);
      forall i :: 0 < i < |t| ==> MatchAt(s, d, t[i].start)
    decreases |s| - from
  {
    var e := FindFrom(s, d, from);
    if e >= 0 {
      TokensDelimited(s, d, e, e + |d|);
      TokensEnds(s, d, e, e + |d|);
      var t' := Tokens(s, d, e, e + |d|);
      var t := [Range(start, e)] + t';
      assert Tokens(s, d, start, from) == t;
      forall i | 0 < i < |t|
        ensures MatchAt(s, d, t[i].start)
      {
        if i == 1 {
          assert t[1] == t'[0];
        } else {
          assert t[i] == t'[i - 1];
        }
      }
    }
  }

  /**
   * A reader has read the first `|records|` records of `t` off `s`, which
   * together are the stream up to `start`; unless `finished`, the rest are
   * those from `start`, searched from `from`.
   */
  ghost predicate Reading(s: seq<Byte>, d: seq<Byte>, t: seq<Range>, records: seq<seq<Byte>>,
                          finished: bool, start: int, from: int)
    requires |d| > 0
  {
    && |records| <= |t|
    && (forall i :: 0 <= i < |records| ==>
          0 <= t[i].start <= t[i].end <= |s| && records[i] == s[t[i].start..t[i].end])
    && 0 <= start <= |s| && Concat(records) == s[..start]
    && (finished ==> |records| == |t| && start == |s|)
    && (!finished ==> |records| < |t| && 0 <= from <= |s| && Tokens(s, d, start, from) == t[|records|..])
  }

  /**
   * The record after the first `k` of `t`, when the rest of `t` are the
   * records from `start` searched from `from`: it ends at the next
   * occurrence, past which the search resumes, or with the stream when there
   * is none, and is then the last one.
   */
  lemma TokensStep(s: seq<Byte>, d: seq<Byte>, start: int, from: nat, t: seq<Range>, k: nat)
    requires |d| > 0 && from <= |s| && k < |t| && Tokens(s, d, start, from) == t[k..]
    ensures var e := FindFrom(s, d, from);
      && (e < 0 ==> t[k] == Range(start, |s|) && k + 1 == |t|)
      && (e >= 0 ==> t[k] == Range(start, e) && e + |d| <= |s| && k + 1 < |t| &&
                     Tokens(s, d, e, e + |d|) == t[k + 1..])
  {
    var e := FindFrom(s, d, from);
    assert t[k..][0] == t[k];
    if e >= 0 {
      var rest := Tokens(s, d, e, e + |d|);
      assert t[k..] == [Range(start, e)] + rest;
      assert t[k + 1..] == t[k..][1..] == rest;
      TokensEnds(s, d, e, e + |d|);
    } else {
      assert t[k..] == [Range(start, |s|)];
    }
  }

  /**
   * Reading the next record keeps a reader on track: the record ends at the
   * next occurrence, past which the search resumes, or with the stream when
   * there is none, which finishes the records.
   */
  lemma ReadingStep(s: seq<Byte>, d: seq<Byte>, t: seq<Range>, records: seq<seq<Byte>>,
                    start: int, from: int, record: seq<Byte>, finished: bool, next: int, nextFrom: int)
    requires |d| > 0 && Reading(s, d, t, records, false, start, from)
    requires FindFrom(s, d, from) < 0 ==> finished && next == |s|
    requires FindFrom(s, d, from) >= 0 ==>
      !finished && next == FindFrom(s, d, from) && nextFrom == next + |d|
    requires 0 <= start <= next <= |s| && record == s[start..next]
    ensures Reading(s, d, t, records + [record], finished, next, nextFrom)
  {
    var k := |records|;
    TokensStep(s, d, start, from, t, k);
    var records' := records + [record];
    ConcatSnoc(records, record);
    assert s[..next] == s[..start] + s[start..next];
    forall i | 0 <= i < |records'|
      ensures 0 <= t[i].start <= t[i].end <= |s| && records'[i] == s[t[i].start..t[i].end]
    {
      if i < k {
        assert records'[i] == records[i];
      }
    }
  }

  class InputStreamSplitter {
    const source: ChunkedSource
    const startDelimiter: seq<Byte>
    const bufferStep: nat

    var buf: array<Byte>
    var pos: int
    var end: int
    var nextPos: int
    var last: int
    var hasNext: bool

    /** Every byte the source delivers over the splitter's life. */
    ghost const stream: seq<Byte>
    /** The stream offset of `buf[0]`: the bytes shifted out of the buffer so far. */
    ghost var base: nat

    /** The source is exhausted and the last record has been reported. */
    ghost predicate Done()
      reads this
    {
      !hasNext && end == last
    }

    /**
     * The buffer's first `last` bytes are the stream's bytes from offset
     * `base` on, and the source holds the rest of the stream; once `hasNext`
     * is false it holds nothing.
     */
    ghost predicate Mirrors()
      reads this`buf, this`last, this`base, this`hasNext, buf, source
    {
      && source.Valid()
      && 0 <= last <= buf.Length
      && base + last <= |stream|
      && buf[..last] == stream[base..base + last]
      && source.Pending() == stream[base + last..]
      && (!hasNext ==> source.Pending() == [])
    }

    ghost predicate Valid()
      reads this, buf, source
    {
      && Mirrors()
      && bufferStep > 0
      && 0 <= pos <= end <= last
      && (|startDelimiter| == 0 ==> hasNext && pos == end == nextPos == 0)
      && (|startDelimiter| > 0 && !Done() ==> end <= nextPos <= last)
    }

    /** `new InputStreamSplitter(source, startDelimiter, bufferStep)`. */
    constructor (source: ChunkedSource, startDelimiter: seq<Byte>, bufferStep: nat)
      requires source.Valid()
      requires bufferStep > 0
      ensures Valid() && fresh(buf)
      ensures this.source == source && this.startDelimiter == startDelimiter && this.bufferStep == bufferStep
      ensures stream == source.Pending() && base == 0 && end == nextPos == 0 && hasNext
    {
      this.source := source;
      this.startDelimiter := startDelimiter;
      this.bufferStep := bufferStep;
      buf := new Byte[0];
      pos, end, nextPos, last := 0, 0, 0, 0;
      hasNext := true;
      stream := source.Pending();
      base := 0;
      new;
      assert buf[..last] == [] == stream[base..base + last];
      assert stream[base + last..] == stream;
    }

    /** `new InputStreamSplitter(source, startDelimiter)`: a buffer step of 4096 bytes. */
    constructor WithDefaultStep(source: ChunkedSource, startDelimiter: seq<Byte>)
      requires source.Valid()
      ensures Valid() && fresh(buf)
      ensures this.source == source && this.startDelimiter == startDelimiter && bufferStep == 4096
      ensures stream == source.Pending() && base == 0 && end == nextPos == 0 && hasNext
    {
      this.source := source;
      this.startDelimiter := startDelimiter;
      this.bufferStep := 4096;
      buf := new Byte[0];
      pos, end, nextPos, last := 0, 0, 0, 0;
      hasNext := true;
      stream := source.Pending();
      base := 0;
      new;
      assert buf[..last] == [] == stream[base..base + last];
      assert stream[base + last..] == stream;
    }

    /**
     * `readNext()`: move to the next record. False exactly when the source is
     * exhausted and the last record already ended at `last`. Otherwise the new
     * record starts where the previous one ended and ends at the stream's next
     * delimiter occurrence at or after the old search position, the search
     * resuming just past that occurrence; with no occurrence left it ends with
     * the stream and the splitter is done.
     */
    method ReadNext() returns (more: bool)
      requires Valid()
      modifies this, buf, source
      ensures Valid() && (buf == old(buf) || fresh(buf))
      ensures more == !old(Done())
      ensures !more ==> unchanged(this)
      ensures !more ==> buf[..] == old(buf[..]) && source.chunks == old(source.chunks)
      ensures more ==> base + pos == old(base + end)
      ensures more && |startDelimiter| > 0 ==>
        FindFrom(stream, startDelimiter, old(base + nextPos)) < 0 ==> Done() && base + end == |stream|
      ensures more && |startDelimiter| > 0 ==> FindFrom(stream, startDelimiter, old(base + nextPos)) >= 0 ==>
        && !Done() && base + end == FindFrom(stream, startDelimiter, old(base + nextPos))
        && nextPos == end + |startDelimiter| && buf[end..nextPos] == startDelimiter
      ensures |startDelimiter| == 0 ==> more && pos == 0 && end == 0
    {
      if !hasNext && end == last {
        return false;
      }
      var d := startDelimiter;
      pos := end;
      if |d| == 0 {
        end := IndexOf(buf, d, nextPos, last);
        nextPos := end + |d|;
        return true;
      }
      Search();
      return true;
    }

    /**
     * The loop of `readNext`: search the buffer for the delimiter from
     * `nextPos`, refilling the buffer until it is found or the source is
     * exhausted. What it finds is the stream's next delimiter occurrence.
     */
    method Search()
      requires Mirrors() && bufferStep > 0 && |startDelimiter| > 0
      requires 0 <= pos <= nextPos <= last
      modifies this, buf, source
      ensures Mirrors() && (buf == old(buf) || fresh(buf))
      ensures 0 <= pos <= end <= last && base + pos == old(base + pos)
      ensures FindFrom(stream, startDelimiter, old(base + nextPos)) < 0 ==>
        !hasNext && end == last && nextPos == -1 && base + last == |stream|
      ensures FindFrom(stream, startDelimiter, old(base + nextPos)) >= 0 ==>
        base + end == FindFrom(stream, startDelimiter, old(base + nextPos)) &&
        nextPos == end + |startDelimiter| <= last && buf[end..nextPos] == startDelimiter
    {
      ghost var n0 := base + nextPos;
      Probe();
      while end == -1 && hasNext
        invariant Searching(n0) && (buf == old(buf) || fresh(buf))
        invariant base + pos == old(base + pos)
        decreases |stream| - (base + last), if hasNext then 1 else 0
      {
        Step(n0);
      }
      Conclude(n0);
    }

    /**
     * While `readNext` searches from stream offset `n0`: the buffer mirrors
     * the stream, and `end` is either -1, the buffer holding no occurrence
     * (none at all when it reaches the end of the stream), or the stream's
     * next occurrence, lying wholly in the buffer.
     */
    ghost predicate Searching(n0: nat)
      reads this, buf, source
    {
      && Mirrors() && bufferStep > 0 && |startDelimiter| > 0
      && 0 <= pos <= nextPos <= last && base + nextPos == n0
      && -1 <= end <= last
      && (end >= 0 ==> base + end == FindFrom(stream, startDelimiter, n0) && end + |startDelimiter| <= last)
      && (end >= 0 ==> buf[end..end + |startDelimiter|] == startDelimiter)
      && (end < 0 && base + last == |stream| ==> FindFrom(stream, startDelimiter, n0) == -1)
    }

    /** One turn of `readNext`'s loop: refill the buffer and search it again. */
    method Step(ghost n0: nat)
      requires Searching(n0) && hasNext
      modifies this, buf, source
      ensures Searching(n0) && (buf == old(buf) || fresh(buf))
      ensures base + pos == old(base + pos)
      ensures base + last >= old(base + last)
      ensures hasNext ==> base + last > old(base + last)
    {
      Refill();
      Probe();
    }

    /**
     * The end of `readNext`'s loop: with no occurrence found the source is
     * exhausted and the record is the last piece of the stream; otherwise the
     * search resumes just past the occurrence.
     */
    method Conclude(ghost n0: nat)
      requires Searching(n0) && (end >= 0 || !hasNext)
      modifies this`end, this`nextPos
      ensures Mirrors()
      ensures pos <= end <= last
      ensures FindFrom(stream, startDelimiter, n0) < 0 ==>
        !hasNext && end == last && nextPos == -1 && base + last == |stream|
      ensures FindFrom(stream, startDelimiter, n0) >= 0 ==>
        base + end == FindFrom(stream, startDelimiter, n0) &&
        nextPos == end + |startDelimiter| <= last && buf[end..nextPos] == startDelimiter
    {
      if end == -1 {
        // last piece
        assert base + last == |stream| by {
          assert |stream[base + last..]| == 0;
        }
        end := last;
        nextPos := -1;
      } else {
        nextPos := end + |startDelimiter|;
      }
    }

    /**
     * One `indexOf` over the filled part of the buffer from `nextPos`: the
     * stream's next delimiter occurrence when it lies in the buffer, and -1
     * otherwise; when the buffer reaches the end of the stream, -1 means
     * there is no occurrence left.
     */
    method Probe()
      requires Mirrors() && |startDelimiter| > 0
      requires 0 <= nextPos <= last
      modifies this`end
      ensures -1 <= end <= last
      ensures end >= 0 ==> base + end == FindFrom(stream, startDelimiter, base + nextPos) && end + |startDelimiter| <= last
      ensures end >= 0 ==> buf[end..end + |startDelimiter|] == startDelimiter
      ensures end < 0 && base + last == |stream| ==> FindFrom(stream, startDelimiter, base + nextPos) == -1
    {
      end := IndexOf(buf, startDelimiter, nextPos, last);
      ProbeFacts(buf[..], stream, startDelimiter, base, last, nextPos, end);
    }

    /**
     * The step `readNext` takes when no delimiter is buffered and the source
     * may still deliver: make room when the buffer is full, then read. Either
     * fewer bytes are pending afterwards, or none were and the source is
     * now known to be exhausted.
     */
    method Refill()
      requires Mirrors() && bufferStep > 0 && hasNext
      requires 0 <= pos <= nextPos <= last
      modifies this, buf, source
      ensures Mirrors() && (buf == old(buf) || fresh(buf))
      ensures 0 <= pos <= nextPos <= last
      ensures base + pos == old(base + pos) && base + nextPos == old(base + nextPos)
      ensures base + last >= old(base + last)
      ensures hasNext ==> base + last > old(base + last)
    {
      if last == buf.Length {
        GetMoreBuf();
      }
      hasNext := ReadStream();
    }

    /**
     * `getBuf()`: the buffer. Its first `last` bytes are the stream's bytes
     * from offset `base` on, so the current record `buf[getStart()..getEnd()]`
     * is the stream's `[base + getStart(), base + getEnd())`.
     */
    function GetBuf(): (b: array<Byte>)
      reads this, buf, source
      requires Valid()
      ensures last <= b.Length && b[..last] == stream[base..base + last]
      ensures b[pos..end] == stream[base + pos..base + end]
    {
      WindowSlice(buf[..], stream, base, last, pos, end);
      buf
    }

    /** `getStart()`: where the current record starts in the buffer, within its filled part. */
    function GetStart(): (r: int)
      reads this, buf, source
      requires Valid()
      ensures 0 <= r <= last <= buf.Length
    {
      pos
    }

    /** `getEnd()`: where the current record ends in the buffer, not before it starts. */
    function GetEnd(): (r: int)
      reads this, buf, source
      requires Valid()
      ensures GetStart() <= r <= last
    {
      end
    }

    /** `getLength()`: the current record's length, `getEnd() - getStart()`. */
    function GetLength(): (r: int)
      reads this, buf, source
      requires Valid()
      ensures r >= 0 && r == GetEnd() - GetStart()
    {
      end - pos
    }

    /**
     * `getMoreBuf()`: called with a full buffer. If the current record does not
     * start at 0, shift the unconsumed bytes `[pos, last)` down to 0; otherwise
     * enlarge the buffer by `bufferStep` bytes, keeping its content.
     */
    method GetMoreBuf()
      requires source.Valid() && bufferStep > 0
      requires 0 <= pos <= nextPos <= last == buf.Length
      requires base + last <= |stream| && buf[..last] == stream[base..base + last]
      modifies this, buf
      ensures unchanged(source) && hasNext == old(hasNext)
      ensures 0 <= pos <= nextPos <= last < buf.Length
      ensures base + pos == old(base + pos) && base + nextPos == old(base + nextPos)
      ensures base + last == old(base + last)
      ensures buf[..last] == stream[base..base + last]
      ensures old(pos) > 0 ==>
        buf == old(buf) && pos == 0 && last == old(last - pos) && nextPos == old(nextPos - pos)
      ensures old(pos) == 0 ==>
        fresh(buf) && buf.Length == old(buf.Length) + bufferStep && last == old(last) && base == old(base)
    {
      if pos > 0 {
        // shift buffer contents to zero
        var n := last - pos;
        forall i | 0 <= i < n {
          buf[i] := buf[pos + i];
        }
        base := base + pos;
        last := last - pos;
        nextPos := nextPos - pos;
        pos := 0;
        assert buf[..last] == old(buf[..last])[old(pos)..];
      } else {
        // enlarge buffer
        var newBuf := new Byte[buf.Length + bufferStep];
        forall i | 0 <= i < last - pos {
          newBuf[i] := buf[i];
        }
        buf := newBuf;
        assert buf[..last] == old(buf[..last]);
      }
    }

    /**
     * `readStream()`: fill `buf[last..]` from the source until the buffer is
     * full or nothing is available; report whether bytes remain available.
     */
    method ReadStream() returns (more: bool)
      requires source.Valid()
      requires 0 <= last <= buf.Length
      requires base + last <= |stream| && buf[..last] == stream[base..base + last]
      requires source.Pending() == stream[base + last..]
      modifies this`last, buf, source
      ensures source.Valid()
      ensures old(last) <= last <= buf.Length
      ensures base + last <= |stream| && buf[..last] == stream[base..base + last]
      ensures source.Pending() == stream[base + last..]
      ensures more == (source.Pending() != [])
      ensures last == buf.Length || source.Pending() == []
      ensures old(last) < buf.Length && old(source.Pending()) != [] ==> last > old(last)
    {
      var toRead := buf.Length - last;
      while toRead > 0
        invariant source.Valid()
        invariant old(last) <= last <= buf.Length && toRead == buf.Length - last
        invariant base + last <= |stream| && buf[..last] == stream[base..base + last]
        invariant source.Pending() == stream[base + last..]
      {
        if source.Available() == 0 {
          return false;
        }
        ghost var l0, p0 := last, source.Pending();
        var n := source.Read(buf, last, toRead);
        toRead := toRead - n;
        last := buf.Length - toRead;
        ReadExtends(stream, base, l0, buf[..l0], buf[l0..last], p0, source.Pending());
        assert buf[..last] == buf[..l0] + buf[l0..last];
      }
      more := source.Available() > 0;
    }
  }

  /** A reader's view of the current record, `getBuf()[getStart()..getEnd()]`: its stream bytes. */
  function CurrentRecord(sp: InputStreamSplitter): (r: seq<Byte>)
    reads sp, sp.buf, sp.source
    requires sp.Valid()
    ensures 0 <= sp.base + sp.pos <= sp.base + sp.end <= |sp.stream|
    ensures r == sp.stream[sp.base + sp.pos..sp.base + sp.end]
  {
    sp.GetBuf()[sp.GetStart()..sp.GetEnd()]
  }

  /**
   * One turn of a reader's loop: `readNext`, then the record's bytes
   * `getBuf()[getStart()..getEnd()]`. The record runs from where the previous
   * one ended to the stream's next delimiter occurrence at or after the old
   * search position, or to the end of the stream when there is none.
   */
  method ReadRecord(sp: InputStreamSplitter, ghost finished: bool, ghost start: int, ghost from: int)
    returns (more: bool, record: seq<Byte>, ghost finished': bool, ghost start': int, ghost from': int)
    requires sp.Valid() && |sp.startDelimiter| > 0
    requires finished == sp.Done() && start == sp.base + sp.end && from == sp.base + sp.nextPos
    modifies sp, sp.buf, sp.source
    ensures sp.Valid() && (sp.buf == old(sp.buf) || fresh(sp.buf))
    ensures finished' == sp.Done() && start' == sp.base + sp.end && from' == sp.base + sp.nextPos
    ensures more == !finished
    ensures more ==> 0 <= start <= start' <= |sp.stream| && record == sp.stream[start..start']
    ensures more && FindFrom(sp.stream, sp.startDelimiter, from) < 0 ==> finished' && start' == |sp.stream|
    ensures more && FindFrom(sp.stream, sp.startDelimiter, from) >= 0 ==>
      !finished' && start' == FindFrom(sp.stream, sp.startDelimiter, from) && from' == start' + |sp.startDelimiter|
    ensures !more ==> finished' == finished && start' == start && from' == from
  {
    more := sp.ReadNext();
    finished', start', from' := sp.Done(), sp.base + sp.end, sp.base + sp.nextPos;
    if !more {
      return more, [], finished', start', from';
    }
    record := CurrentRecord(sp);
  }

  /**
   * A reader of the splitter: call `readNext` until it returns false and
   * collect each record's bytes `getBuf()[getStart()..getEnd()]`. The records
   * read are exactly those of `Tokens`, whatever the chunks the source
   * delivered, and together they spell out the whole stream.
   */
  method ReadAll(sp: InputStreamSplitter) returns (records: seq<seq<Byte>>)
    requires sp.Valid() && |sp.startDelimiter| > 0
    requires sp.base == 0 && sp.end == 0 && sp.nextPos == 0 && sp.hasNext
    modifies sp, sp.buf, sp.source
    ensures var t := Tokens(sp.stream, sp.startDelimiter, 0, 0);
      && |records| == |t|
      && forall i :: 0 <= i < |t| ==>
        0 <= t[i].start <= t[i].end <= |sp.stream| && records[i] == sp.stream[t[i].start..t[i].end]
    ensures Concat(records) == sp.stream
  {
    ghost var s, d := sp.stream, sp.startDelimiter;
    ghost var t := Tokens(s, d, 0, 0);
    // the reader's progress, as stream offsets
    ghost var finished, start, from := false, 0, 0;
    records := [];
    while true
      invariant sp.Valid() && (sp.buf == old(sp.buf) || fresh(sp.buf))
      invariant finished == sp.Done() && start == sp.base + sp.end && from == sp.base + sp.nextPos
      invariant Reading(s, d, t, records, finished, start, from)
      decreases |t| - |records|
    {
      var more, record;
      ghost var start0, from0 := start, from;
      more, record, finished, start, from := ReadRecord(sp, finished, start, from);
      if !more {
        break;
      }
      ReadingStep(s, d, t, records, start0, from0, record, finished, start, from);
      records := records + [record];
    }
    assert s[..start] == s;
  }
}
