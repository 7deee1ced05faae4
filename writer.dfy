/** The buffered sink of the dump side (dump.go, SafeWriter): a fixed-size
    bufio.Writer in front of the output destination, which flushes before a
    string that does not fit in the room left. */
module Writer {

  /** bufio's size for a writer asked for a size that is not positive. */
  const DefaultBufSize: nat := 4096

  /** The size the dump asks for. */
  const BufferSize: nat := 0x10_0000

  /** Where a string that fits in a buffer of the given size ends up: after
      the buffered text when there is room for it, otherwise alone in the
      buffer once the buffered text has gone to the destination. */
  function Staged(dest: string, buffered: string, size: nat, s: string): (r: (string, string))
  {
    if size - |buffered| < |s| then (dest + buffered, s) else (dest, buffered + s)
  }

  /** Staging keeps the order of the text, flushes all of the buffered text
      or none of it, and keeps a string that fits the buffer in one piece:
      it ends up whole at the end of the buffer, which never overflows. */
  lemma StagedKeepsWhole(dest: string, buffered: string, size: nat, s: string)
    requires |buffered| <= size && |s| <= size
    ensures var r := Staged(dest, buffered, size, s);
      && r.0 + r.1 == dest + buffered + s
      && (r.0 == dest || r.0 == dest + buffered)
      && |r.1| <= size
      && |s| <= |r.1| && r.1[|r.1| - |s|..] == s
  {
    var r := Staged(dest, buffered, size, s);
    if size - |buffered| >= |s| {
      assert r.1[|r.1| - |s|..] == s;
    }
  }

  /** Taking m more characters of s after the first `count`: the text
      written so far grows by exactly them. */
  lemma TakeMore(w: string, s: string, count: nat, rest: string, m: nat)
    requires count <= |s| && rest == s[count..] && m <= |rest|
    ensures (w + s[..count]) + rest[..m] == w + s[..count + m]
    ensures rest[m..] == s[count + m..]
    ensures m == |rest| ==> s[..count + m] == s
  {
    assert s[..count + m] == s[..count] + rest[..m];
  }

  class SafeWriter {
    /** The buffer; its length is the writer's size. */
    const buf: array<char>
    /** How many characters of buf are filled. */
    var n: nat
    /** Everything the destination io.Writer has received. */
    var dest: string

    ghost predicate Valid()
      reads this
    {
      0 < buf.Length && n <= buf.Length
    }

    function Buffered(): (r: string)
      reads this, buf
      requires Valid()
    {
      buf[..n]
    }

    function Available(): (r: int)
      reads this
      requires Valid()
    {
      buf.Length - n
    }

    /** The destination's text followed by the text still in the buffer. */
    ghost function Written(): (r: string)
      reads this, buf
      requires Valid()
    {
      dest + buf[..n]
    }

    /** NewSafeWriterWithSize(writer, size) over a destination that has
        already received `received`. */
    constructor (received: string, size: int)
      ensures Valid() && fresh(buf)
      ensures buf.Length == if size <= 0 then DefaultBufSize else size
      ensures dest == received && Buffered() == []
    {
      buf := new char[if size <= 0 then DefaultBufSize else size];
      n := 0;
      dest := received;
    }

    /** Hands the buffered text to the destination. */
    method Flush()
      requires Valid()
      modifies this
      ensures Valid() && Buffered() == [] && dest == old(dest) + old(Buffered())
    {
      dest := dest + buf[..n];
      n := 0;
    }

    /** copy(b.buf[b.n:], t) for a t that fits. */
    method CopyIn(t: string)
      requires Valid() && |t| <= Available()
      modifies this, buf
      ensures Valid() && dest == old(dest) && Buffered() == old(Buffered()) + t
    {
      var i := 0;
      while i < |t|
        invariant 0 <= i <= |t| && n == old(n) && dest == old(dest)
        invariant buf[..n + i] == old(buf[..n]) + t[..i]
      {
        buf[n + i] := t[i];
        assert buf[..n + i + 1] == buf[..n + i] + [t[i]];
        assert t[..i + 1] == t[..i] + [t[i]];
        i := i + 1;
      }
      n := n + |t|;
    }

    /** Fills the room left with t and flushes the full buffer. */
    method FillAndFlush(t: string)
      requires Valid() && |t| == Available()
      modifies this, buf
      ensures Valid() && Buffered() == [] && Written() == old(Written()) + t
    {
      CopyIn(t);
      assert Written() == old(Written()) + t;
      Flush();
    }

    /** bufio.Writer.WriteString: while the text does not fit, fill the room
        left and flush; then buffer the rest. */
    method BufWriteString(s: string) returns (count: nat)
      requires Valid()
      modifies this, buf
      ensures Valid() && count == |s|
      ensures Written() == old(Written()) + s
      ensures |s| <= old(Available()) ==> dest == old(dest) && Buffered() == old(Buffered()) + s
    {
      var rest := s;
      count := 0;
      ghost var fits := |s| <= Available();
      ghost var w0 := Written();
      while |rest| > Available()
        invariant Valid() && count + |rest| == |s| && rest == s[count..]
        invariant Written() == w0 + s[..count]
        invariant fits ==> count == 0 && dest == old(dest) && Buffered() == old(Buffered())
        decreases |rest|, n
      {
        var m := Available();
        FillAndFlush(rest[..m]);
        TakeMore(w0, s, count, rest, m);
        count := count + m;
        rest := rest[m..];
      }
      ghost var before := Written();
      CopyIn(rest);
      assert Written() == before + rest;
      TakeMore(w0, s, count, rest, |rest|);
      count := count + |rest|;
    }

    /** SafeWriter.WriteString: flushes first when the room left is smaller
        than s. */
    method WriteString(s: string) returns (count: nat)
      requires Valid()
      modifies this, buf
      ensures Valid() && count == |s|
      ensures Written() == old(Written()) + s
      ensures |s| <= buf.Length ==> (dest, Buffered()) == Staged(old(dest), old(Buffered()), buf.Length, s)
    {
      ghost var staged := Staged(dest, Buffered(), buf.Length, s);
      if Available() < |s| {
        Flush();
      }
      count := BufWriteString(s);
      assert |s| <= buf.Length ==> dest == staged.0 && Buffered() == staged.1;
    }
  }
}
