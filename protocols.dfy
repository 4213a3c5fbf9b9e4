/** What every transport shares: the line a `read_line` returns. Bytes are
    turned into characters one by one (`chr(b)`), accumulated until the text
    holds CR LF, and the text is returned with trailing whitespace removed
    (`str.rstrip()`). */
module Protocols {
  import opened Base

  const CR: byte := 13
  const LF: byte := 10

  /** One `read(1)`/`recv(1)` of a transport: a byte, an empty answer, or (on
      a socket) an error. */
  datatype Read = Byte(b: byte) | Nothing | Failure

  /** The byte one read delivers, if any. */
  function Delivered(r: Read): (bs: seq<byte>)
    ensures |bs| <= 1
  {
    if r.Byte? then [r.b] else []
  }

  /** The bytes a sequence of reads delivers, in order. */
  function Received(rs: seq<Read>): (bs: seq<byte>)
    ensures |bs| <= |rs|
  {
    if rs == [] then []
    else Received(rs[..|rs| - 1]) + Delivered(rs[|rs| - 1])
  }

  lemma ReceivedAppend(rs: seq<Read>, r: Read)
    ensures Received(rs + [r]) == Received(rs) + Delivered(r)
  {
    assert (rs + [r])[..|rs|] == rs;
  }

  /** The reads of the first `i + 1` deliver those of the first `i`, then
      read `i`'s byte if it has one. */
  lemma ReceivedStep(rs: seq<Read>, i: nat)
    requires i < |rs|
    ensures Received(rs[..i + 1]) == Received(rs[..i]) + Delivered(rs[i])
  {
    assert rs[..i + 1][..i] == rs[..i];
  }

  /** Reads that each deliver a byte. */
  function Bytes(bs: seq<byte>): (rs: seq<Read>)
    ensures |rs| == |bs| && forall i :: 0 <= i < |bs| ==> rs[i] == Byte(bs[i])
  {
    seq(|bs|, i requires 0 <= i < |bs| => Byte(bs[i]))
  }

  /** Reads that each deliver a byte deliver exactly those bytes. */
  lemma {:induction false} ReceivedBytes(bs: seq<byte>)
    ensures Received(Bytes(bs)) == bs
  {
    if bs != [] {
      var n := |bs| - 1;
      assert Bytes(bs)[..n] == Bytes(bs[..n]);
      ReceivedBytes(bs[..n]);
      assert bs[..n] + [bs[n]] == bs;
    }
  }

  /** No read of `rs` is an error. */
  predicate Reliable(rs: seq<Read>) {
    forall i :: 0 <= i < |rs| ==> !rs[i].Failure?
  }

  /** Reads left over from reliable reads are reliable. */
  lemma ReliableSuffix(rs: seq<Read>, k: nat)
    requires Reliable(rs) && k <= |rs|
    ensures Reliable(rs[k..])
  {
    assert forall j :: 0 <= j < |rs[k..]| ==> rs[k..][j] == rs[k + j];
  }

  /** Reads delivered one after the other deliver their bytes in that order. */
  lemma {:induction false} ReceivedConcat(a: seq<Read>, b: seq<Read>)
    ensures Received(a + b) == Received(a) + Received(b)
  {
    if b == [] {
      assert a + b == a;
    } else {
      var n := |b| - 1;
      assert (a + b)[..|a + b| - 1] == a + b[..n];
      assert (a + b)[|a + b| - 1] == b[n];
      ReceivedConcat(a, b[..n]);
      var last := Delivered(b[n]);
      calc {
        Received(a + b);
        Received(a + b[..n]) + last;
        Received(a) + Received(b[..n]) + last;
        Received(a) + (Received(b[..n]) + last);
        Received(a) + Received(b);
      }
    }
  }

  /** `chr(b)` of every byte. */
  function Chars(bs: seq<byte>): (s: string)
    ensures |s| == |bs| && forall i :: 0 <= i < |bs| ==> s[i] as int == bs[i]
  {
    seq(|bs|, i requires 0 <= i < |bs| => bs[i] as char)
  }

  /** The text of what one more read delivers extends the text so far. */
  lemma CharsStep(bs: seq<byte>, r: Read)
    ensures Chars(bs + Delivered(r)) == Chars(bs) + (if r.Byte? then [r.b as char] else [])
  {
  }

  /** Whether `s` holds CR LF somewhere. */
  predicate HasCrLf(s: string) {
    exists i :: 0 <= i < |s| - 1 && s[i] == '\r' && s[i + 1] == '\n'
  }

  /** The characters `str.isspace()` accepts among `chr(0)` to `chr(255)`. */
  predicate IsSpace(c: char) {
    var n := c as int;
    (9 <= n <= 13) || (28 <= n <= 32) || n == 133 || n == 160
  }

  /** `str.rstrip()`: the longest prefix that does not end in whitespace. */
  function RStrip(s: string): (r: string)
    ensures |r| <= |s| && r == s[..|r|]
    ensures r == [] || !IsSpace(r[|r| - 1])
    ensures forall i :: |r| <= i < |s| ==> IsSpace(s[i])
  {
    if s == [] || !IsSpace(s[|s| - 1]) then s
    else
      var r := RStrip(s[..|s| - 1]);
      assert s[..|s| - 1][..|r|] == s[..|r|];
      r
  }

  /** Where the first CR LF of a byte stream ends: the number of bytes
      `read_line` consumes, None when no CR LF ever arrives. */
  function LineEnd(bs: seq<byte>): (n: Option<nat>)
    ensures n.Some? ==> 2 <= n.value <= |bs| && bs[n.value - 2] == CR && bs[n.value - 1] == LF
    ensures n.Some? ==> !HasCrLf(Chars(bs[..n.value - 1]))
    ensures n.None? ==> !HasCrLf(Chars(bs))
  {
    LineEndFrom(bs, 0)
  }

  /** `LineEnd`, having checked the first `k` bytes. */
  function LineEndFrom(bs: seq<byte>, k: nat): (n: Option<nat>)
    requires k <= |bs|
    requires !HasCrLf(Chars(bs[..k]))
    ensures n.Some? ==> 2 <= n.value <= |bs| && bs[n.value - 2] == CR && bs[n.value - 1] == LF
    ensures n.Some? ==> !HasCrLf(Chars(bs[..n.value - 1]))
    ensures n.None? ==> !HasCrLf(Chars(bs))
    decreases |bs| - k
  {
    if k == |bs| then
      assert bs[..k] == bs;
      None
    else if k >= 1 && bs[k - 1] == CR && bs[k] == LF then
      assert bs[..k + 1][..k] == bs[..k];
      Some(k + 1)
    else
      NoCrLfExtend(bs, k);
      LineEndFrom(bs, k + 1)
  }

  /** Adding one byte that does not close a CR LF keeps the text free of it. */
  lemma NoCrLfExtend(bs: seq<byte>, k: nat)
    requires k < |bs| && !HasCrLf(Chars(bs[..k]))
    requires !(k >= 1 && bs[k - 1] == CR && bs[k] == LF)
    ensures !HasCrLf(Chars(bs[..k + 1]))
  {
    var s, t := Chars(bs[..k]), Chars(bs[..k + 1]);
  }

  /** A prefix of a text without CR LF has none either. */
  lemma NoCrLfPrefix(s: string, k: nat)
    requires k <= |s| && !HasCrLf(s)
    ensures !HasCrLf(s[..k])
  {
    var p := s[..k];
  }

  /** Stripping ignores trailing whitespace already being there. */
  lemma RStripSpace(s: string, c: char)
    requires IsSpace(c)
    ensures RStrip(s + [c]) == RStrip(s)
  {
    assert (s + [c])[..|s|] == s;
  }

  /** A longer prefix of the bytes keeps a CR LF the shorter one holds. */
  lemma CrLfGrows(bs: seq<byte>, a: nat, b: nat)
    requires a <= |bs| && b <= |bs|
    ensures a <= b && HasCrLf(Chars(bs[..a])) ==> HasCrLf(Chars(bs[..b]))
  {
    if a <= b && HasCrLf(Chars(bs[..a])) {
      var i :| 0 <= i < a - 1 && Chars(bs[..a])[i] == '\r' && Chars(bs[..a])[i + 1] == '\n';
      var t := Chars(bs[..b]);
      assert t[i] == '\r' && t[i + 1] == '\n';
    }
  }

  /** Bytes ending in CR LF hold CR LF. */
  lemma CrLfAtEnd(bs: seq<byte>, n: nat)
    requires 2 <= n <= |bs| && bs[n - 2] == CR && bs[n - 1] == LF
    ensures HasCrLf(Chars(bs[..n]))
  {
    var t := Chars(bs[..n]);
    assert t[n - 2] == '\r' && t[n - 1] == '\n';
  }

  /** The first CR LF ends where the text first holds CR LF: if the first
      `m` bytes hold it and the first `m - 1` do not, the line is `m` long. */
  lemma LineEndUnique(bs: seq<byte>, m: nat)
    requires 2 <= m <= |bs|
    requires HasCrLf(Chars(bs[..m])) && !HasCrLf(Chars(bs[..m - 1]))
    ensures LineEnd(bs) == Some(m)
  {
    var end := LineEnd(bs);
    assert end.Some? by {
      CrLfGrows(bs, m, |bs|);
      assert bs[..|bs|] == bs;
    }
    var n := end.value;
    CrLfAtEnd(bs, n);
    CrLfGrows(bs, n, m - 1);
    CrLfGrows(bs, m, n - 1);
  }

  /** `read_line()` over the bytes it will receive: the right-stripped text
      of everything up to and including the first CR LF, and how many bytes
      that took; None when the line never completes. */
  function ReadLine(bs: seq<byte>): (r: Option<(string, nat)>)
    ensures r.Some? <==> LineEnd(bs).Some?
    ensures r.Some? ==> r.value.1 == LineEnd(bs).value && r.value.0 == RStrip(Chars(bs[..r.value.1]))
  {
    match LineEnd(bs)
    case None => None
    case Some(n) => Some((RStrip(Chars(bs[..n])), n))
  }

  /** The line `read_line` returns never holds CR LF, and it is a prefix of
      the text before the terminating CR LF. */
  lemma ReadLineHasNoCrLf(bs: seq<byte>)
    requires ReadLine(bs).Some?
    ensures !HasCrLf(ReadLine(bs).value.0)
    ensures ReadLine(bs).value.0 == RStrip(Chars(bs[..ReadLine(bs).value.1 - 2]))
  {
    var n := LineEnd(bs).value;
    var before, body := Chars(bs[..n - 1]), Chars(bs[..n - 2]);
    assert Chars(bs[..n]) == body + ['\r'] + ['\n'];
    RStripSpace(body + ['\r'], '\n');
    RStripSpace(body, '\r');
    assert body == before[..n - 2];
    NoCrLfPrefix(before, n - 2);
    NoCrLfPrefix(body, |RStrip(body)|);
  }

  /** The byte strings a sender gives the transport: T, E, S, T, CR, LF and
      then S read as the line "TEST", leaving the S unread. */
  lemma ReadLineExample()
    ensures var line := ReadLine([84, 69, 83, 84, 13, 10, 83]);
      line.Some? && line.value.0 == "TEST" && line.value.1 == 6
  {
    var bs: seq<byte> := [84, 69, 83, 84, 13, 10, 83];
    ExampleLineEnd(bs);
    ExampleStrip(bs);
  }

  /** In T, E, S, T, CR, LF, S the first CR LF ends after 6 bytes. */
  lemma ExampleLineEnd(bs: seq<byte>)
    requires bs == [84, 69, 83, 84, 13, 10, 83]
    ensures LineEnd(bs) == Some(6)
  {
    assert !HasCrLf(Chars(bs[..0]));
    assert LineEndFrom(bs, 5) == Some(6);
    assert LineEndFrom(bs, 4) == Some(6);
    assert LineEndFrom(bs, 3) == Some(6);
    assert LineEndFrom(bs, 2) == Some(6);
    assert LineEndFrom(bs, 1) == Some(6);
  }

  /** The text of T, E, S, T, CR, LF stripped is "TEST". */
  lemma ExampleStrip(bs: seq<byte>)
    requires bs == [84, 69, 83, 84, 13, 10, 83]
    ensures RStrip(Chars(bs[..6])) == "TEST"
  {
    assert Chars(bs[..6]) == "TEST\r\n";
    assert RStrip("TEST\r\n") == RStrip("TEST\r");
    assert RStrip("TEST\r") == RStrip("TEST");
  }

  /** Splitting the reads at `i` splits what they deliver. */
  lemma ReceivedSplit(rs: seq<Read>, i: nat)
    requires i <= |rs|
    ensures Received(rs) == Received(rs[..i]) + Received(rs[i..])
    ensures i < |rs| ==> Received(rs[i..]) == Delivered(rs[i]) + Received(rs[i + 1..])
  {
    ReceivedAt(rs, i);
    if i < |rs| {
      ReceivedHead(rs, i);
    }
  }

  lemma ReceivedAt(rs: seq<Read>, i: nat)
    requires i <= |rs|
    ensures Received(rs) == Received(rs[..i]) + Received(rs[i..])
  {
    var a, b := rs[..i], rs[i..];
    assert a + b == rs;
    ReceivedConcat(a, b);
  }

  lemma ReceivedHead(rs: seq<Read>, i: nat)
    requires i < |rs|
    ensures Received(rs[i..]) == Delivered(rs[i]) + Received(rs[i + 1..])
  {
    assert [rs[i]] + rs[i + 1..] == rs[i..];
    ReceivedCons(rs[i], rs[i + 1..]);
  }

  lemma ReceivedCons(r: Read, rs: seq<Read>)
    ensures Received([r] + rs) == Delivered(r) + Received(rs)
  {
    ReceivedConcat([r], rs);
    ReceivedAppend([], r);
    assert [] + [r] == [r];
  }

  /** When the first `|pre|` bytes hold CR LF and the first `|pre| - 1` do
      not, the line is those `|pre|` bytes. */
  lemma LineFoundBytes(bs: seq<byte>, pre: seq<byte>, rest: seq<byte>)
    requires bs == pre + rest && 1 <= |pre|
    requires HasCrLf(Chars(pre)) && !HasCrLf(Chars(pre[..|pre| - 1]))
    ensures ReadLine(bs).Some? && ReadLine(bs).value.0 == RStrip(Chars(pre)) && ReadLine(bs).value.1 == |pre|
  {
    var m := |pre|;
    assert bs[..m] == pre;
    assert bs[..m - 1] == pre[..m - 1];
    LineEndUnique(bs, m);
  }

  /** When the text of the first `i` reads holds CR LF and that of the first
      `i - 1` does not, those `i` reads deliver exactly the first line. */
  lemma LineFound(rs: seq<Read>, i: nat)
    requires 1 <= i <= |rs|
    requires HasCrLf(Chars(Received(rs[..i]))) && !HasCrLf(Chars(Received(rs[..i - 1])))
    ensures var line := ReadLine(Received(rs));
      line.Some? && line.value.0 == RStrip(Chars(Received(rs[..i]))) && line.value.1 == |Received(rs[..i])|
  {
    var pre, shorter := Received(rs[..i]), Received(rs[..i - 1]);
    ReceivedAt(rs, i);
    ReceivedStep(rs, i - 1);
    assert |Delivered(rs[i - 1])| == 1;
    assert pre[..|pre| - 1] == shorter;
    LineFoundBytes(Received(rs), pre, Received(rs[i..]));
  }

  /** Where `read_line`'s scan over the reads `rs` stops: after `i` reads
      whose bytes `pre` first hold CR LF, or at the end without one. */
  lemma LineScanned(rs: seq<Read>, i: nat, pre: seq<byte>, shorter: seq<byte>)
    requires i <= |rs| && pre == Received(rs[..i])
    requires i < |rs| ==> HasCrLf(Chars(pre))
    requires HasCrLf(Chars(pre)) ==> 1 <= i && shorter == Received(rs[..i - 1]) && !HasCrLf(Chars(shorter))
    ensures HasCrLf(Chars(pre)) ==>
      var line := ReadLine(Received(rs));
      line.Some? && line.value.0 == RStrip(Chars(pre)) && line.value.1 == |pre|
    ensures HasCrLf(Chars(pre)) ==> Received(rs[i..]) == Received(rs)[|pre|..]
    ensures !HasCrLf(Chars(pre)) ==> ReadLine(Received(rs)).None?
  {
    ReceivedAt(rs, i);
    if HasCrLf(Chars(pre)) {
      LineFound(rs, i);
    } else {
      assert rs[..i] == rs;
      NoLineEnd(Received(rs));
    }
  }

  /** The loop of `read_line()` over the reads `rs`: characters accumulate
      in `response` until it holds CR LF, which happens after `i` reads, or
      the reads run out. */
  method ScanLine(rs: seq<Read>) returns (i: nat, response: string)
    ensures i <= |rs|
    ensures HasCrLf(response) <==> ReadLine(Received(rs)).Some?
    ensures HasCrLf(response) ==> RStrip(response) == ReadLine(Received(rs)).value.0
    ensures HasCrLf(response) ==> Received(rs[i..]) == Received(rs)[ReadLine(Received(rs)).value.1..]
  {
    response := [];
    ghost var pre: seq<byte> := [];
    ghost var shorter: seq<byte> := [];
    i := 0;
    while i < |rs| && !HasCrLf(response)
      invariant 0 <= i <= |rs|
      invariant pre == Received(rs[..i]) && response == Chars(pre)
      invariant HasCrLf(response) ==> 1 <= i && shorter == Received(rs[..i - 1]) && !HasCrLf(Chars(shorter))
    {
      var got := rs[i];
      ReceivedStep(rs, i);
      CharsStep(pre, got);
      shorter := pre;
      pre := pre + Delivered(got);
      if got.Byte? {
        response := response + [got.b as char];
      }
      i := i + 1;
    }
    LineScanned(rs, i, pre, shorter);
  }

  /** A stream whose text never holds CR LF has no line. */
  lemma NoLineEnd(bs: seq<byte>)
    requires !HasCrLf(Chars(bs))
    ensures ReadLine(bs).None?
  {
  }

  /** What a handler's `receive(protocol)` reads after its code byte: nothing
      (the base class's `receive`), or one line (the DEBUG handler). */
  datatype Payload = NoPayload | LinePayload

  /** The input left after `receive` has read its payload from `input`; None
      when a line payload never completes (the read keeps waiting). */
  function Receive(p: Payload, input: seq<byte>): (rest: Option<seq<byte>>)
    ensures p == NoPayload ==> rest == Some(input)
    ensures p == LinePayload ==> (rest.Some? <==> LineEnd(input).Some?)
    ensures p == LinePayload && rest.Some? ==> rest.value == input[LineEnd(input).value..]
    ensures rest.Some? ==> |rest.value| <= |input|
  {
    match p
    case NoPayload => Some(input)
    case LinePayload =>
      match ReadLine(input)
      case None => None
      case Some((_, n)) => Some(input[n..])
  }
}
