/** The buffered stream of thrhttp.c over a connection that delivers its bytes in chunks of any size. */
module LineReader {
  import opened Common

  const BSTREAM_BUFSIZE := 4096
  const NL: byte := 10

  /** The receiving end of a connection.  `rest` are the bytes to come; how they are cut up is not determined. */
  class Connection {
    var rest: seq<byte>

    constructor (stream: seq<byte>)
      ensures rest == stream
    {
      rest := stream;
    }

    /** `recv`: between one byte and `n` bytes, and none exactly at the end of the stream or if none was asked for. */
    method Recv(n: nat) returns (chunk: seq<byte>)
      modifies this
      ensures chunk + rest == old(rest) && |chunk| <= n
      ensures chunk == [] <==> n == 0 || old(rest) == []
    {
      var most := if n < |rest| then n else |rest|;
      var k :| (if most == 0 then 0 else 1) <= k <= most;
      chunk := rest[..k];
      rest := rest[k..];
    }
  }

  lemma ConcatAssoc(a: seq<byte>, b: seq<byte>, c: seq<byte>)
    ensures (a + b) + c == a + (b + c)
  {
  }

  /** The specification of a line: up to and including the first newline, or all there is. */
  function FirstLine(p: seq<byte>): (l: seq<byte>)
    ensures l <= p && (p != [] ==> l != [])
  {
    if p == [] then [] else if p[0] == NL then [NL] else [p[0]] + FirstLine(p[1..])
  }

  lemma FirstLineCons(x: byte, p: seq<byte>)
    requires x != NL
    ensures FirstLine([x] + p) == [x] + FirstLine(p)
  {
    assert ([x] + p)[1..] == p;
  }

  lemma ConcatCons(a: seq<byte>, b: seq<byte>)
    requires a != []
    ensures a + b == [a[0]] + (a[1..] + b)
  {
  }

  lemma {:induction false} FirstLineConcat(a: seq<byte>, b: seq<byte>)
    requires NL !in a
    ensures FirstLine(a + b) == a + FirstLine(b)
  {
    if a == [] {
      assert a + b == b;
    } else {
      FirstLineConcat(a[1..], b);
      FirstLineCons(a[0], a[1..] + b);
      ConcatCons(a, b);
      ConcatCons(a, FirstLine(b));
    }
  }

  lemma FirstLineUpTo(a: seq<byte>, b: seq<byte>)
    requires NL !in a
    ensures FirstLine(a + [NL] + b) == a + [NL]
  {
    FirstLineConcat(a, [NL] + b);
    assert a + [NL] + b == a + ([NL] + b);
  }

  lemma LineEndsWith(a: seq<byte>, piece: seq<byte>, b: seq<byte>)
    requires NL !in a && EndsInNewline(piece) && NL !in piece[..|piece| - 1]
    ensures FirstLine(a + piece + b) == a + piece
  {
    var clean := a + piece[..|piece| - 1];
    FirstLineUpTo(clean, b);
    assert a + piece == clean + [NL];
  }

  function Lines(p: seq<byte>): seq<seq<byte>>
    decreases |p|
  {
    if p == [] then [] else [FirstLine(p)] + Lines(p[|FirstLine(p)|..])
  }

  function Join(ls: seq<seq<byte>>): seq<byte> {
    if ls == [] then [] else ls[0] + Join(ls[1..])
  }

  /** A line: not empty, and a newline in it can only be its last byte. */
  ghost predicate IsLine(l: seq<byte>) {
    l != [] && 10 !in l[..|l| - 1]
  }

  ghost predicate EndsInNewline(l: seq<byte>) {
    l != [] && l[|l| - 1] == 10
  }

  lemma {:induction false} FirstLineIsLine(p: seq<byte>)
    requires p != []
    ensures IsLine(FirstLine(p)) && (EndsInNewline(FirstLine(p)) || FirstLine(p) == p)
  {
    if p[0] != NL && p[1..] != [] {
      FirstLineIsLine(p[1..]);
      var l := FirstLine(p[1..]);
      assert FirstLine(p)[..|l|] == [p[0]] + l[..|l| - 1];
      assert p == [p[0]] + p[1..];
    }
  }

  /** The lines are the stream cut behind each newline: they join to the stream, each is a line, and all but the last
      end in a newline. */
  lemma {:induction false} LinesCutTheStream(p: seq<byte>)
    ensures Join(Lines(p)) == p
    ensures forall i :: 0 <= i < |Lines(p)| ==> IsLine(Lines(p)[i])
    ensures forall i :: 0 <= i < |Lines(p)| - 1 ==> EndsInNewline(Lines(p)[i])
    decreases |p|
  {
    if p != [] {
      FirstLineIsLine(p);
      var l := FirstLine(p);
      LinesCutTheStream(p[|l|..]);
      assert p == l + p[|l|..];
      assert Lines(p)[1..] == Lines(p[|l|..]);
      forall i | 0 <= i < |Lines(p)| ensures IsLine(Lines(p)[i]) {
        if i > 0 { assert Lines(p)[i] == Lines(p[|l|..])[i - 1]; }
      }
      forall i | 0 <= i < |Lines(p)| - 1 ensures EndsInNewline(Lines(p)[i]) {
        if i > 0 { assert Lines(p)[i] == Lines(p[|l|..])[i - 1]; }
      }
    }
  }

  class BStream {
    const conn: Connection
    const buf: array<byte>
    var ridx: nat
    var bcnt: nat

    ghost predicate Valid()
      reads this
    {
      buf.Length == BSTREAM_BUFSIZE && ridx <= bcnt <= BSTREAM_BUFSIZE
    }

    /** The bytes not yet handed out: what is left in the buffer, then what the connection still delivers. */
    ghost function Pending(): seq<byte>
      requires Valid()
      reads this, buf, conn
    {
      buf[ridx..bcnt] + conn.rest
    }

    constructor (c: Connection)
      ensures Valid() && conn == c && fresh(buf) && buf.Length == 4096 && Pending() == c.rest
    {
      conn := c;
      buf := new byte[BSTREAM_BUFSIZE];
      ridx, bcnt := 0, 0;
    }

    /** `bstream_refil`: the buffer is filled anew, so bytes still in it are dropped; its caller has none there. */
    method Refil() returns (n: nat)
      requires Valid()
      modifies this, buf, conn
      ensures Valid() && ridx == 0 && bcnt == n && Pending() == old(conn.rest)
      ensures old(ridx == bcnt) ==> Pending() == old(Pending())
      ensures n == 0 <==> Pending() == []
    {
      ridx := 0;
      var chunk := conn.Recv(BSTREAM_BUFSIZE);
      forall i | 0 <= i < |chunk| { buf[i] := chunk[i]; }
      bcnt := |chunk|;
      assert buf[..bcnt] == chunk;
      return bcnt;
    }

    /** `bstream_readsome`: what is buffered, up to `n`, or one chunk from the connection. */
    method ReadSome(n: nat) returns (out: seq<byte>)
      requires Valid()
      modifies this, conn
      ensures Valid() && out + Pending() == old(Pending()) && |out| <= n
      ensures out == [] <==> n == 0 || old(Pending()) == []
      ensures old(ridx) < old(bcnt) ==>
                bcnt == old(bcnt) && conn.rest == old(conn.rest) &&
                |out| == (if n < old(bcnt - ridx) then n else old(bcnt - ridx)) && ridx == old(ridx) + |out|
    {
      if ridx < bcnt {
        var cnt := bcnt - ridx;
        if cnt > n {
          cnt := n;
        }
        out := buf[ridx..ridx + cnt];
        ridx := ridx + cnt;
        assert old(buf[ridx..bcnt]) == out + buf[ridx..bcnt];
      } else {
        out := conn.Recv(n);
      }
    }

    /** `bstream_read`: exactly `n` bytes, or all that are left. */
    method Read(n: nat) returns (out: seq<byte>)
      requires Valid()
      modifies this, conn
      ensures Valid() && out + Pending() == old(Pending())
      ensures |out| == if n < |old(Pending())| then n else |old(Pending())|
    {
      out := [];
      while |out| < n
        invariant Valid() && |out| <= n && out + Pending() == old(Pending())
      {
        var more := ReadSome(n - |out|);
        if more == [] {
          break;
        }
        ConcatAssoc(out, more, Pending());
        out := out + more;
      }
    }

    /** `memchr` for a newline in the buffered bytes: its place, or `bcnt`. */
    method FindNewline() returns (i: nat)
      requires Valid()
      ensures ridx <= i <= bcnt && NL !in buf[ridx..i] && (i < bcnt ==> buf[i] == NL)
    {
      i := ridx;
      while i < bcnt && buf[i] != NL
        invariant ridx <= i <= bcnt && NL !in buf[ridx..i]
      {
        assert buf[ridx..i + 1] == buf[ridx..i] + [buf[i]];
        i := i + 1;
      }
    }

    /** One round of the loop of `bstream_readln`: the buffered bytes up to and including a newline, or all of them. */
    method ReadPiece() returns (piece: seq<byte>, eol: bool)
      requires Valid() && ridx < bcnt
      modifies this, conn
      ensures Valid() && piece != [] && piece + Pending() == old(Pending())
      ensures if eol then EndsInNewline(piece) && NL !in piece[..|piece| - 1] else NL !in piece
    {
      var i := FindNewline();
      eol := i < bcnt;
      var cnt := if eol then i - ridx + 1 else bcnt - ridx;
      ghost var head := buf[ridx..ridx + cnt];
      assert Pending()[..cnt] == head;
      assert eol ==> head[..cnt - 1] == buf[ridx..i];
      piece := ReadSome(cnt);
      assert piece == (piece + Pending())[..cnt];
    }

    /** `bstream_readln`: the first line of what is pending, whatever the chunks; NULL exactly at the end. */
    method ReadLn() returns (ln: Option<seq<byte>>)
      requires Valid()
      modifies this, buf, conn
      ensures Valid()
      ensures old(Pending()) == [] ==> ln == None && Pending() == []
      ensures old(Pending()) != [] ==> ln == Some(FirstLine(old(Pending()))) && ln.value + Pending() == old(Pending())
    {
      var got: seq<byte> := [];
      var eol := false;
      ghost var all := Pending();
      while !eol
        invariant Valid() && got + Pending() == all
        invariant if eol then got != [] && got == FirstLine(all) else NL !in got
        decreases !eol, |Pending()|
      {
        if ridx == bcnt {
          var n := Refil();
          if n == 0 {
            break;
          }
        }
        ghost var before := got;
        var piece;
        piece, eol := ReadPiece();
        got := got + piece;
        ConcatAssoc(before, piece, Pending());
        if eol {
          LineEndsWith(before, piece, Pending());
        }
      }
      if !eol {
        FirstLineConcat(got, []);
        assert got + [] == got == all;
      }
      ln := if got == [] then None else Some(got);
    }
  }

  // ---------------------------------------------------------------- whole runs

  datatype Op = Line | Bytes(n: nat)

  /** What an operation returns, given the bytes pending. */
  function Result(p: seq<byte>, op: Op): (r: seq<byte>)
    ensures r <= p
  {
    match op
    case Line => FirstLine(p)
    case Bytes(n) => if n < |p| then p[..n] else p
  }

  function Results(p: seq<byte>, ops: seq<Op>): seq<seq<byte>>
    decreases |ops|
  {
    if ops == [] then [] else [Result(p, ops[0])] + Results(p[|Result(p, ops[0])|..], ops[1..])
  }

  /** The pieces are consecutive: joined, they are a prefix of the stream. */
  lemma {:induction false} ResultsAreConsecutive(p: seq<byte>, ops: seq<Op>)
    ensures Join(Results(p, ops)) <= p
    decreases |ops|
  {
    if ops != [] {
      var r := Result(p, ops[0]);
      ResultsAreConsecutive(p[|r|..], ops[1..]);
      assert Results(p, ops)[1..] == Results(p[|r|..], ops[1..]);
      assert p == r + p[|r|..];
    }
  }

  /** Any mix of reads returns what it would on the unbuffered, uncut stream; a NULL line counts as no bytes. */
  method Run(b: BStream, ops: seq<Op>) returns (rs: seq<seq<byte>>)
    requires b.Valid()
    modifies b, b.buf, b.conn
    ensures b.Valid() && rs == Results(old(b.Pending()), ops)
    decreases |ops|
  {
    if ops == [] {
      return [];
    }
    ghost var p := b.Pending();
    var r;
    match ops[0] {
      case Line =>
        var ln := b.ReadLn();
        r := if ln.None? then [] else ln.value;
      case Bytes(n) =>
        r := b.Read(n);
    }
    assert r + b.Pending() == p;
    assert r == p[..|r|] && b.Pending() == p[|r|..];
    assert r == Result(p, ops[0]);
    rs := Run(b, ops[1..]);
    rs := [r] + rs;
  }

  /** Reading lines until NULL gives the stream split behind each newline, however the connection cuts it up. */
  method ReadAllLines(b: BStream) returns (ls: seq<seq<byte>>)
    requires b.Valid()
    modifies b, b.buf, b.conn
    ensures b.Valid() && ls == Lines(old(b.Pending())) && b.Pending() == []
    decreases |b.Pending()|
  {
    ghost var p := b.Pending();
    var ln := b.ReadLn();
    if ln.None? {
      return [];
    }
    assert b.Pending() == (ln.value + b.Pending())[|ln.value|..];
    ls := ReadAllLines(b);
    ls := [ln.value] + ls;
  }
}
