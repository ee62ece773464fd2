/** Consistent overhead byte stuffing (Cheshire and Baker, IEEE/ACM Transactions on Networking, 1999). */
module Cobs {
  import opened Words
  import opened Wrappers

  predicate ZeroFree(s: seq<byte>) {
    forall i :: 0 <= i < |s| ==> s[i] != 0
  }

  /** Length of the run of non-zero bytes at the front of `d`, at most `cap`. */
  function Run(d: seq<byte>, cap: nat): (n: nat)
    ensures n <= cap && n <= |d| && ZeroFree(d[..n])
    ensures n < cap && n < |d| ==> d[n] == 0
  {
    if d == [] || cap == 0 || d[0] == 0 then 0
    else
      var n := 1 + Run(d[1..], cap - 1);
      assert forall i :: 0 < i < n ==> d[i] == d[1..][..n - 1][i - 1];
      n
  }

  /** The code byte that announces a run of `n` bytes. */
  function Code(n: nat): byte
    requires n <= 254
  {
    ByteOf(n + 1)
  }

  /** Each block is a code byte, one more than the run it announces, and the run. */
  function Encode(d: seq<byte>): (f: seq<byte>)
    ensures f != []
    decreases |d|
  {
    var n := Run(d, 254);
    if n == 254 then [Code(n)] + d[..n] + Encode(d[n..])
    else if n == |d| then [Code(n)] + d
    else [Code(n)] + d[..n] + Encode(d[n + 1..])
  }

  /** The bytes a frame stands for, or nothing if a block announces a zero length or runs past the end. */
  function Decode(f: seq<byte>): (d: Option<seq<byte>>)
    decreases |f|
  {
    if f == [] then Some([])
    else
      var code := f[0] as int;
      if code == 0 || code > |f| then None else Joined(f[1..code] + Separator(code, f[code..]), Decode(f[code..]))
  }

  /** The zero byte that ends a block, unless the block is of full length or the last. */
  function Separator(code: nat, rest: seq<byte>): (z: seq<byte>) {
    if code == 255 || rest == [] then [] else [0]
  }

  function Joined(head: seq<byte>, tail: Option<seq<byte>>): (d: Option<seq<byte>>) {
    match tail
    case None => None
    case Some(t) => Some(head + t)
  }

  lemma JoinedTwice(a: seq<byte>, b: seq<byte>, t: Option<seq<byte>>)
    ensures Joined(a, Joined(b, t)) == Joined(a + b, t)
  {
    if t.Some? {
      assert a + (b + t.value) == a + b + t.value;
    }
  }

  lemma CodeByte(n: nat)
    requires n <= 254
    ensures Code(n) as int == n + 1 && Code(n) != 0
  {
    assert (0 as byte) as int == 0;
  }

  lemma JoinZeroFree(code: byte, run: seq<byte>, rest: seq<byte>)
    requires code != 0 && ZeroFree(run) && ZeroFree(rest)
    ensures ZeroFree([code] + run + rest)
  {
  }

  /** A zero byte never appears in an encoding. */
  lemma {:induction false} EncodeZeroFree(d: seq<byte>)
    ensures ZeroFree(Encode(d))
    decreases |d|
  {
    hide Run, Code, ZeroFree;
    var n := Run(d, 254);
    CodeByte(n);
    if n == 254 {
      EncodeZeroFree(d[n..]);
      JoinZeroFree(Code(n), d[..n], Encode(d[n..]));
    } else if n == |d| {
      assert d[..n] == d && [Code(n)] + d + [] == [Code(n)] + d;
      NothingZeroFree();
      JoinZeroFree(Code(n), d, []);
    } else {
      EncodeZeroFree(d[n + 1..]);
      JoinZeroFree(Code(n), d[..n], Encode(d[n + 1..]));
    }
  }

  lemma NothingZeroFree()
    ensures ZeroFree([])
  {
  }

  lemma DecodeBlock(code: byte, run: seq<byte>, rest: seq<byte>)
    requires code as int == |run| + 1
    ensures Decode([code] + run + rest) == Joined(run + Separator(|run| + 1, rest), Decode(rest))
  {
    var f := [code] + run + rest;
    assert f[1..|run| + 1] == run && f[|run| + 1..] == rest;
  }

  /** A block in front of an encoding that decodes to `d`. */
  lemma BlockDecodes(n: nat, run: seq<byte>, rest: seq<byte>, d: seq<byte>)
    requires n == |run| <= 254 && Decode(rest) == Some(d)
    ensures Decode([Code(n)] + run + rest) == Some(run + Separator(n + 1, rest) + d)
  {
    hide Decode, Code, Separator;
    CodeByte(n);
    DecodeBlock(Code(n), run, rest);
  }

  lemma SplitAt(d: seq<byte>, n: nat)
    requires n <= |d|
    ensures d[..n] + [] + d[n..] == d
    ensures n < |d| && d[n] == 0 ==> d[..n] + [0] + d[n + 1..] == d
  {
  }

  /** Decoding inverts encoding. */
  lemma {:induction false} RoundTrip(d: seq<byte>)
    ensures Decode(Encode(d)) == Some(d)
    decreases |d|
  {
    hide Decode, Run, Code, ZeroFree;
    var n := Run(d, 254);
    SplitAt(d, n);
    if n == 254 {
      RoundTrip(d[n..]);
      BlockDecodes(n, d[..n], Encode(d[n..]), d[n..]);
    } else if n == |d| {
      DecodeNothing();
      BlockDecodes(n, d, [], []);
      assert [Code(n)] + d + [] == [Code(n)] + d && d + [] + [] == d;
    } else {
      RoundTrip(d[n + 1..]);
      BlockDecodes(n, d[..n], Encode(d[n + 1..]), d[n + 1..]);
    }
  }

  lemma DecodeNothing()
    ensures Decode([]) == Some([])
  {
  }

  lemma JoinedNothing(t: Option<seq<byte>>, head: seq<byte>)
    ensures Joined([], t) == t && Joined(head, None) == None && Joined(head, Some([])) == Some(head)
  {
    assert head + [] == head;
    if t.Some? {
      assert [] + t.value == t.value;
    }
  }

  /**
   * Decodes `buf[..end]` over itself. The write position stays strictly behind the read position whenever a
   * byte is written before the next code byte is read, so no unread byte is lost.
   */
  method DecodeInPlace(buf: array<byte>, end: nat) returns (length: Option<nat>)
    requires end <= buf.Length
    modifies buf
    ensures buf[end..] == old(buf[end..])
    ensures length.None? <==> Decode(old(buf[..end])).None?
    ensures length.Some? ==> length.value <= end && Decode(old(buf[..end])) == Some(buf[..length.value])
  {
    hide Decode, Joined, Separator;
    ghost var frame := buf[..end];
    var source, dest := 0, 0;
    assert frame[0..] == frame && buf[..0] == [];
    JoinedNothing(Decode(frame), []);
    while source < end
      invariant dest <= source <= end
      invariant buf[source..end] == frame[source..] && buf[end..] == old(buf[end..])
      invariant Decode(frame) == Joined(buf[..dest], Decode(frame[source..]))
    {
      ghost var rest := frame[source..];
      var code := buf[source] as int;
      assert buf[source] == rest[0];
      DecodeUnfold(rest);
      if code == 0 || source + code > end {
        JoinedNothing(None, buf[..dest]);
        return None;
      }
      ghost var head := buf[..dest];
      dest := MoveBlock(buf, source, dest, code, end, rest);
      DropTwice(frame, source, code);
      source := source + code;
      JoinedTwice(head, rest[1..code] + Separator(code, rest[code..]), Decode(rest[code..]));
    }
    DecodeNothing();
    JoinedNothing(None, buf[..dest]);
    length := Some(dest);
  }

  lemma DecodeUnfold(f: seq<byte>)
    requires f != []
    ensures var code := f[0] as int;
            Decode(f) == if code == 0 || code > |f| then None
                         else Joined(f[1..code] + Separator(code, f[code..]), Decode(f[code..]))
  {
  }

  /** Moves the run of the block at `source` to `dest`, with the zero that ends it. */
  method MoveBlock(buf: array<byte>, source: nat, dest: nat, code: nat, end: nat, ghost rest: seq<byte>)
    returns (after: nat)
    requires dest <= source && 0 < code && source + code <= end <= buf.Length && rest == buf[source..end]
    modifies buf
    ensures dest <= after <= source + code
    ensures buf[source + code..end] == rest[code..] && buf[end..] == old(buf[end..])
    ensures buf[..after] == old(buf[..dest]) + (rest[1..code] + Separator(code, rest[code..]))
  {
    MoveRun(buf, source, dest, code, end, rest);
    after := dest + (code - 1);
    ghost var body := buf[..after];
    if code != 255 && source + code < end {
      buf[after] := 0;
      after := after + 1;
      assert buf[..after] == body + [0];
    }
    assert rest[1..code] + [] == rest[1..code];
    assert old(buf[..dest]) + (rest[1..code] + [0]) == old(buf[..dest]) + rest[1..code] + [0];
  }

  method MoveRun(buf: array<byte>, source: nat, dest: nat, code: nat, end: nat, ghost rest: seq<byte>)
    requires dest <= source && 0 < code && source + code <= end <= buf.Length && rest == buf[source..end]
    modifies buf
    ensures buf[source + code..end] == rest[code..] && buf[end..] == old(buf[end..])
    ensures buf[..dest + (code - 1)] == old(buf[..dest]) + rest[1..code]
  {
    SliceOfSlice(buf[..], source, end, 1, code);
    SliceOfSlice(buf[..], source, end, code, end - source);
    assert rest[1..code] == buf[source + 1..source + code];
    ghost var tail := buf[source + code..];
    SliceOfSlice(buf[..], source + code, buf.Length, 0, end - source - code);
    SliceOfSlice(buf[..], source + code, buf.Length, end - source - code, |tail|);
    CopyDown(buf, source + 1, dest, code - 1, end);
    SliceOfSlice(buf[..], source + code, buf.Length, 0, end - source - code);
    SliceOfSlice(buf[..], source + code, buf.Length, end - source - code, |tail|);
    TwoParts(buf[..], dest, code - 1);
  }

  lemma TwoParts(s: seq<byte>, n: nat, m: nat)
    requires n + m <= |s|
    ensures s[..n + m] == s[..n] + s[n..n + m]
  {
  }

  lemma DropTwice(s: seq<byte>, n: nat, m: nat)
    requires n + m <= |s|
    ensures s[n..][m..] == s[n + m..]
  {
  }

  lemma SliceOfSlice(s: seq<byte>, i: nat, j: nat, a: nat, b: nat)
    requires i <= j <= |s| && a <= b <= j - i
    ensures s[i..j][a..b] == s[i + a..i + b]
  {
    var t := s[i..j];
    assert forall k :: 0 <= k < b - a ==> t[a..b][k] == t[a + k] == s[i + (a + k)] == s[i + a..i + b][k];
  }

  /** The run of a block, moved to the write position. */
  method CopyDown(buf: array<byte>, source: nat, dest: nat, count: nat, ghost end: nat)
    requires dest < source && source + count <= end <= buf.Length
    modifies buf
    ensures buf[..dest] == old(buf[..dest]) && buf[dest..dest + count] == old(buf[source..source + count])
    ensures buf[source + count..] == old(buf[source + count..])
  {
    for i := 0 to count
      invariant buf[..dest] == old(buf[..dest])
      invariant buf[dest..dest + i] == old(buf[source..source + i])
      invariant buf[source + i..] == old(buf[source + i..])
    {
      buf[dest + i] := buf[source + i];
    }
  }

  /** Stuffing costs one byte, and another for each 254 bytes. */
  lemma {:induction false} Overhead(d: seq<byte>)
    ensures |d| + 1 <= |Encode(d)| <= |d| + |d| / 254 + 1
    decreases |d|
  {
    hide Run, Code;
    var n := Run(d, 254);
    if n == 254 {
      Overhead(d[n..]);
    } else if n < |d| {
      Overhead(d[n + 1..]);
    }
  }

  lemma {:induction false} RunAtMost(d: seq<byte>, cap: nat, k: nat)
    requires k < |d| && d[k] == 0
    ensures Run(d, cap) <= k
  {
    if cap > 0 && d[0] != 0 {
      RunAtMost(d[1..], cap - 1, k - 1);
    }
  }

  lemma {:induction false} RunAtLeast(run: seq<byte>, more: seq<byte>, cap: nat)
    requires ZeroFree(run) && |run| <= cap
    ensures Run(run + more, cap) >= |run|
  {
    if run != [] {
      assert (run + more)[1..] == run[1..] + more && (run + more)[0] == run[0];
      RunAtLeast(run[1..], more, cap - 1);
    }
  }

  lemma RunStops(run: seq<byte>, rest: seq<byte>)
    requires ZeroFree(run) && |run| <= 254
    ensures |run| == 254 ==> Run(run + rest, 254) == 254
    ensures Run(run + [0] + rest, 254) == |run|
  {
    hide Run;
    RunAtLeast(run, rest, 254);
    RunAtLeast(run, [0] + rest, 254);
    assert run + ([0] + rest) == run + [0] + rest;
    RunAtMost(run + [0] + rest, 254, |run|);
  }

  /** A run of 254 bytes is announced by 255, and there is no zero behind it. */
  lemma FullBlock(run: seq<byte>, rest: seq<byte>)
    requires ZeroFree(run) && |run| == 254
    ensures Encode(run + rest) == [255] + run + Encode(rest)
    ensures Decode([255] + run + rest) == Joined(run, Decode(rest))
  {
    hide Run, Decode;
    RunStops(run, rest);
    CodeByte(254);
    assert (run + rest)[..254] == run && (run + rest)[254..] == rest;
    DecodeBlock(255, run, rest);
    assert run + [] == run;
  }

  /** A shorter run that is not the last is announced by one more than its length, and stands for a zero behind it. */
  lemma ShortBlock(run: seq<byte>, rest: seq<byte>)
    requires ZeroFree(run) && |run| < 254
    ensures Encode(run + [0] + rest) == [ByteOf(|run| + 1)] + run + Encode(rest)
    ensures rest != [] ==> Decode([ByteOf(|run| + 1)] + run + rest) == Joined(run + [0], Decode(rest))
  {
    hide Run, Decode;
    RunStops(run, rest);
    var n := |run|;
    assert (run + [0] + rest)[..n] == run && (run + [0] + rest)[n + 1..] == rest;
    DecodeBlock(ByteOf(n + 1), run, rest);
  }
}
