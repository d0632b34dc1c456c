/**
 The byte stream form of H.264 and H.265 pictures: NAL units separated by start codes, with an
 emulation prevention byte wherever a start code would appear inside a NAL unit.
 */
module NalByteStream {
  import opened Bytes

  const START_CODE: seq<octet> := [0, 0, 1]

  predicate StartCodeAt(s: seq<octet>, i: int)
  {
    0 <= i && i + 3 <= |s| && s[i] == 0 && s[i + 1] == 0 && s[i + 2] == 1
  }

  predicate EscapedCodeAt(s: seq<octet>, i: int)
  {
    0 <= i && i + 4 <= |s| && s[i] == 0 && s[i + 1] == 0 && s[i + 2] == 3 && s[i + 3] == 1
  }

  ghost predicate HasStartCode(s: seq<octet>)
  {
    exists i :: StartCodeAt(s, i)
  }

  ghost predicate HasEscapedCode(s: seq<octet>)
  {
    exists i :: EscapedCodeAt(s, i)
  }

  /* ---- writing ---- */

  /** A NAL unit with every 0,0,1 rewritten to 0,0,3,1. */
  function Escape(n: seq<octet>): seq<octet>
    decreases |n|
  {
    if n == [] then []
    else if StartCodeAt(n, 0) then [0, 0, 3] + Escape(n[2..])
    else [n[0]] + Escape(n[1..])
  }

  /** NAL units after the first start code. */
  function Body(nalus: seq<seq<octet>>): seq<octet>
  {
    if nalus == [] then []
    else if |nalus| == 1 then Escape(nalus[0])
    else Escape(nalus[0]) + (START_CODE + Body(nalus[1..]))
  }

  /** A picture: one extra zero byte, then each NAL unit behind its start code. */
  function Stream(nalus: seq<seq<octet>>): seq<octet>
  {
    if nalus == [] then [] else [0] + START_CODE + Body(nalus)
  }

  datatype WriteResult = Filled(length: nat) | InsufficientBuffer | Overrun

  function Joined(nalus: seq<seq<octet>>): seq<octet>
  {
    if nalus == [] then [] else START_CODE + Escape(nalus[0]) + Joined(nalus[1..])
  }

  lemma {:induction false} JoinedIsBody(nalus: seq<seq<octet>>)
    requires nalus != []
    ensures Joined(nalus) == START_CODE + Body(nalus)
  {
    if |nalus| == 1 {
      assert nalus[1..] == [] && Joined([]) == [];
      assert START_CODE + Escape(nalus[0]) + [] == START_CODE + Escape(nalus[0]);
    } else {
      JoinedIsBody(nalus[1..]);
      assert START_CODE + Escape(nalus[0]) + Joined(nalus[1..]) == START_CODE + (Escape(nalus[0]) + Joined(nalus[1..]));
    }
  }

  method Put(buf: array<octet>, it: nat, s: seq<octet>)
    requires it + |s| <= buf.Length
    modifies buf
    ensures buf[..it + |s|] == old(buf[..it]) + s
  {
    forall k | 0 <= k < |s| {
      buf[it + k] := s[k];
    }
  }

  /** Writes one NAL unit from position `start`; None where the source throws. */
  method WriteNalu(n: seq<octet>, buf: array<octet>, start: nat) returns (r: Option<nat>)
    requires start <= buf.Length
    modifies buf
    ensures old(buf[..start]) <= buf[..]
    ensures r.Some? <==> start + |Escape(n)| < buf.Length
    ensures r.Some? ==> r.value == start + |Escape(n)| && buf[..r.value] == old(buf[..start]) + Escape(n)
  {
    var it, src := start, 0;
    ghost var before := buf[..start];
    ghost var goal := before + Escape(n);
    while src < |n| && it < buf.Length
      invariant 0 <= src <= |n| && start <= it <= buf.Length
      invariant before <= buf[..it] && buf[..it] + Escape(n[src..]) == goal
      decreases |n| - src
    {
      ghost var done := buf[..it];
      EscapeAt(n, src);
      if n[src] == 0 && src + 2 < |n| && n[src + 1] == 0 && n[src + 2] == 1 {
        if it + 3 < buf.Length {
          Put(buf, it, [0, 0, 3]);
          Assoc(done, [0, 0, 3], Escape(n[src + 2..]));
          it := it + 3;
          src := src + 2;
        } else {
          assert buf[..it] <= buf[..];
          return None;
        }
      } else {
        Put(buf, it, [n[src]]);
        Assoc(done, [n[src]], Escape(n[src + 1..]));
        it := it + 1;
        src := src + 1;
      }
    }
    assert buf[..it] <= buf[..];
    if it == buf.Length {
      return None;
    }
    assert n[src..] == [] && buf[..it] + [] == buf[..it];
    r := Some(it);
  }

  lemma EscapeAt(n: seq<octet>, src: nat)
    requires src < |n|
    ensures if StartCodeAt(n, src)
            then Escape(n[src..]) == [0, 0, 3] + Escape(n[src + 2..]) && Escape(n[src + 2..]) != []
            else Escape(n[src..]) == [n[src]] + Escape(n[src + 1..])
  {
    var rest := n[src..];
    assert StartCodeAt(rest, 0) <==> StartCodeAt(n, src);
    if StartCodeAt(n, src) {
      assert rest[2..] == n[src + 2..];
      EscapeNonEmpty(n[src + 2..]);
    } else {
      assert rest[1..] == n[src + 1..];
    }
  }

  lemma EscapeNonEmpty(n: seq<octet>)
    requires n != []
    ensures Escape(n) != []
  {
  }

  /** A start code and its NAL unit. The start code is written without a bounds check: `Overrun` stands
      for the write past the end of the buffer that the source performs there. */
  method WriteUnit(n: seq<octet>, buf: array<octet>, it: nat) returns (r: WriteResult)
    requires it <= buf.Length
    modifies buf
    ensures r.Overrun? <==> it + 3 > buf.Length
    ensures r.Filled? <==> it + 3 + |Escape(n)| < buf.Length
    ensures r.Filled? ==> r.length == it + 3 + |Escape(n)|
    ensures r.Filled? ==> buf[..r.length] == old(buf[..it]) + (START_CODE + Escape(n))
  {
    if it + 3 > buf.Length {
      return Overrun;
    }
    Put(buf, it, START_CODE);
    var written := WriteNalu(n, buf, it + 3);
    if written == None {
      return InsufficientBuffer;
    }
    Assoc(old(buf[..it]), START_CODE, Escape(n));
    r := Filled(written.value);
  }

  /** The start code of NAL unit `k` runs past the end of a buffer that held all NAL units before it. */
  predicate OverrunAt(nalus: seq<seq<octet>>, length: nat, k: nat)
    requires k <= |nalus|
  {
    |Stream(nalus[..k])| < length < |Stream(nalus[..k])| + 3
  }

  ghost predicate Overruns(nalus: seq<seq<octet>>, length: nat)
  {
    exists k :: 0 < k < |nalus| && OverrunAt(nalus, length, k)
  }

  ghost predicate ClearBefore(nalus: seq<seq<octet>>, length: nat, k: nat)
    requires k <= |nalus|
  {
    forall j :: 0 < j < k ==> !OverrunAt(nalus, length, j)
  }

  /** What has been written before NAL unit `k`. */
  function Written(nalus: seq<seq<octet>>, k: nat): seq<octet>
    requires k <= |nalus|
  {
    if k == 0 && nalus != [] then [0] else Stream(nalus[..k])
  }

  lemma {:induction false} JoinedSnoc(nalus: seq<seq<octet>>, n: seq<octet>)
    ensures Joined(nalus + [n]) == Joined(nalus) + (START_CODE + Escape(n))
  {
    if nalus == [] {
      assert nalus + [n] == [n] && [n][1..] == [];
      assert START_CODE + Escape(n) + [] == [] + (START_CODE + Escape(n));
    } else {
      assert (nalus + [n])[1..] == nalus[1..] + [n];
      JoinedSnoc(nalus[1..], n);
      Assoc(START_CODE + Escape(nalus[0]), Joined(nalus[1..]), START_CODE + Escape(n));
    }
  }

  lemma NextWritten(nalus: seq<seq<octet>>, k: nat)
    requires k < |nalus|
    ensures Written(nalus, k + 1) == Written(nalus, k) + (START_CODE + Escape(nalus[k]))
  {
    assert nalus[..k + 1] == nalus[..k] + [nalus[k]];
    StreamIsJoined(nalus[..k + 1]);
    StreamIsJoined(nalus[..k]);
    JoinedSnoc(nalus[..k], nalus[k]);
    Assoc([0], Joined(nalus[..k]), START_CODE + Escape(nalus[k]));
  }

  lemma {:induction false} WrittenGrows(nalus: seq<seq<octet>>, j: nat, k: nat)
    requires j <= k <= |nalus|
    ensures |Written(nalus, j)| <= |Written(nalus, k)|
    decreases k
  {
    if j < k {
      WrittenGrows(nalus, j, k - 1);
      NextWritten(nalus, k - 1);
    }
  }

  /** A buffer that ends inside the text of NAL unit `k` is not overrun, if no earlier start code did. */
  lemma NoOverrun(nalus: seq<seq<octet>>, length: nat, k: nat)
    requires k < |nalus| && |Written(nalus, k)| + 3 <= length <= |Written(nalus, k + 1)|
    requires ClearBefore(nalus, length, k)
    ensures !Overruns(nalus, length)
  {
    forall j | 0 < j < |nalus|
      ensures !OverrunAt(nalus, length, j)
    {
      if j > k {
        WrittenGrows(nalus, k + 1, j);
      }
    }
  }

  /** The first `k` NAL units are written as `s` in a buffer of the given length. */
  ghost predicate Progress(s: seq<octet>, nalus: seq<seq<octet>>, k: nat, length: nat)
  {
    4 <= length && k <= |nalus| && |s| < length && s == Written(nalus, k) && ClearBefore(nalus, length, k)
  }

  lemma UnitFilled(s: seq<octet>, nalus: seq<seq<octet>>, k: nat, length: nat)
    requires k < |nalus| && Progress(s, nalus, k, length) && |s| + 3 + |Escape(nalus[k])| < length
    ensures Progress(s + (START_CODE + Escape(nalus[k])), nalus, k + 1, length)
  {
    NextWritten(nalus, k);
  }

  lemma UnitFailed(s: seq<octet>, nalus: seq<seq<octet>>, k: nat, length: nat)
    requires k < |nalus| && Progress(s, nalus, k, length) && |s| + 3 + |Escape(nalus[k])| >= length
    ensures |Written(nalus, |nalus|)| >= length && (|s| + 3 > length <==> Overruns(nalus, length))
  {
    NextWritten(nalus, k);
    WrittenGrows(nalus, k + 1, |nalus|);
    if |s| + 3 > length {
      assert k > 0;
      assert OverrunAt(nalus, length, k);
    } else {
      NoOverrun(nalus, length, k);
    }
  }

  lemma AllWritten(s: seq<octet>, nalus: seq<seq<octet>>, length: nat)
    requires Progress(s, nalus, |nalus|, length)
    ensures s == Stream(nalus) && !Overruns(nalus, length)
  {
    assert nalus[..|nalus|] == nalus;
  }

  /** One turn of the conversion, with NAL unit `k` of `nalus`. */
  method WriteNext(n: seq<octet>, buf: array<octet>, it: nat, ghost nalus: seq<seq<octet>>, ghost k: nat)
    returns (r: WriteResult)
    requires k < |nalus| && n == nalus[k] && it < buf.Length && Progress(buf[..it], nalus, k, buf.Length)
    modifies buf
    ensures r.Filled? ==> r.length < buf.Length && Progress(buf[..r.length], nalus, k + 1, buf.Length)
    ensures !r.Filled? ==> |Stream(nalus)| >= buf.Length && (r.Overrun? <==> Overruns(nalus, buf.Length))
  {
    ghost var s := buf[..it];
    r := WriteUnit(n, buf, it);
    if r.Filled? {
      UnitFilled(s, nalus, k, buf.Length);
    } else {
      UnitFailed(s, nalus, k, buf.Length);
      assert nalus[..|nalus|] == nalus;
    }
  }

  /** The conversion of a whole picture. It succeeds exactly when the stream leaves a spare byte; it
      writes past the end of the buffer exactly when the buffer ends inside a later start code. */
  method NalusToByteStream(nalus: seq<seq<octet>>, buf: array<octet>) returns (r: WriteResult)
    modifies buf
    ensures r.Filled? <==> 4 <= buf.Length && |Stream(nalus)| < buf.Length
    ensures r.Overrun? <==> 4 <= buf.Length && Overruns(nalus, buf.Length)
    ensures r.Filled? ==> r.length == |Stream(nalus)| && buf[..r.length] == Stream(nalus)
  {
    if buf.Length < 4 {
      return InsufficientBuffer;
    }
    var it := 0;
    var q := nalus;
    ghost var k := 0;
    if nalus != [] {
      buf[it] := 0;
      it := it + 1;
      assert buf[..it] == [0];
    }
    while q != []
      invariant k <= |nalus| && q == nalus[k..] && 0 <= it < buf.Length
      invariant Progress(buf[..it], nalus, k, buf.Length)
      decreases |q|
    {
      r := WriteNext(q[0], buf, it, nalus, k);
      if !r.Filled? {
        return;
      }
      it := r.length;
      q := q[1..];
      k := k + 1;
    }
    AllWritten(buf[..it], nalus, buf.Length);
    r := Filled(it);
  }

  /** The second of two one-byte NAL units does this to a buffer of six bytes. */
  lemma OverrunExample()
    ensures Overruns([[9], [9]], 6)
  {
    var nalus: seq<seq<octet>> := [[9], [9]];
    NextWritten(nalus, 0);
    assert Escape([9]) == [9] by { assert [9 as octet][1..] == []; }
    assert OverrunAt(nalus, 6, 1);
  }

  lemma StreamIsJoined(nalus: seq<seq<octet>>)
    ensures Stream(nalus) == if nalus == [] then [] else [0] + Joined(nalus)
  {
    if nalus != [] {
      JoinedIsBody(nalus);
      Assoc([0], START_CODE, Body(nalus));
    }
  }

  /* ---- parsing ---- */

  /** Prevention byte removal as coded: 0,0,3,1 becomes 0,0,1,1, so the length never changes. */
  function Unescape(n: seq<octet>): (r: seq<octet>)
    ensures |r| == |n|
    decreases |n|
  {
    if n == [] then []
    else if EscapedCodeAt(n, 0) then [0, 0, 1] + Unescape(n[3..])
    else [n[0]] + Unescape(n[1..])
  }

  function Decode(n: seq<octet>, removePreventionBytes: bool): seq<octet>
  {
    if removePreventionBytes then Unescape(n) else n
  }

  /** Cuts `s` at its start codes, looking for them from offset `i` on. After a cut the first byte of
      the next NAL unit is not examined, and a start code in the last three bytes is not seen. */
  function Segments(s: seq<octet>, i: nat): seq<seq<octet>>
    decreases |s|, |s| - i
  {
    if i + 3 >= |s| then [s]
    else if StartCodeAt(s, i) then [s[..i]] + Segments(s[i + 3..], 1)
    else Segments(s, i + 1)
  }

  function DecodeAll(segments: seq<seq<octet>>, removePreventionBytes: bool): seq<seq<octet>>
  {
    if segments == [] then []
    else [Decode(segments[0], removePreventionBytes)] + DecodeAll(segments[1..], removePreventionBytes)
  }

  datatype Parsed = Parsed(nalus: seq<seq<octet>>) | NoPictureStartCode

  predicate PictureStart(s: seq<octet>)
  {
    |s| > 4 && s[0] == 0 && s[1] == 0 && s[2] == 0 && s[3] == 1
  }

  function Parse(s: seq<octet>, removePreventionBytes: bool): Parsed
  {
    if !PictureStart(s) then NoPictureStartCode
    else Parsed(DecodeAll(Segments(s[4..], 0), removePreventionBytes))
  }

  method MakeNalu(s: seq<octet>, removePreventionBytes: bool) returns (nalu: seq<octet>)
    ensures nalu == Decode(s, removePreventionBytes)
  {
    nalu := [];
    var it := 0;
    while it < |s|
      invariant 0 <= it <= |s|
      invariant nalu + Decode(s[it..], removePreventionBytes) == Decode(s, removePreventionBytes)
      decreases |s| - it
    {
      DecodeStep(s, it, removePreventionBytes);
      if removePreventionBytes && s[it] == 0 && it + 3 < |s| && s[it + 1] == 0 && s[it + 2] == 3 && s[it + 3] == 1 {
        Assoc(nalu, [0, 0, 1], Decode(s[it + 3..], removePreventionBytes));
        it := it + 3;
        nalu := nalu + [0, 0, 1];
      } else {
        Assoc(nalu, [s[it]], Decode(s[it + 1..], removePreventionBytes));
        nalu := nalu + [s[it]];
        it := it + 1;
      }
    }
  }

  lemma DecodeStep(s: seq<octet>, it: nat, remove: bool)
    requires it < |s|
    ensures Decode(s[it..], remove)
         == if remove && EscapedCodeAt(s, it) then [0, 0, 1] + Decode(s[it + 3..], remove)
            else [s[it]] + Decode(s[it + 1..], remove)
  {
    var rest := s[it..];
    assert rest[1..] == s[it + 1..] && rest == [s[it]] + s[it + 1..];
    if EscapedCodeAt(s, it) {
      assert rest[3..] == s[it + 3..];
    }
  }

  lemma DecodeSnoc(segments: seq<seq<octet>>, x: seq<octet>, rest: seq<seq<octet>>, remove: bool)
    requires segments == [x] + rest
    ensures DecodeAll(segments, remove) == [Decode(x, remove)] + DecodeAll(rest, remove)
  {
    assert segments[1..] == rest;
  }

  /** What is still to come when the scan stands at `i` in the NAL unit that began at `begin`. */
  ghost function Remaining(s: seq<octet>, begin: nat, i: nat, remove: bool): seq<seq<octet>>
    requires begin <= i && begin <= |s|
  {
    DecodeAll(Segments(s[begin..], i - begin), remove)
  }

  lemma CutHere(s: seq<octet>, begin: nat, i: nat, remove: bool)
    requires begin <= i && StartCodeAt(s, i) && i + 3 < |s|
    ensures Remaining(s, begin, i, remove) == [Decode(s[begin..i], remove)] + Remaining(s, i + 3, i + 4, remove)
  {
    var rest := s[begin..];
    assert StartCodeAt(rest, i - begin);
    assert rest[..i - begin] == s[begin..i] && rest[i - begin + 3..] == s[i + 3..];
    DecodeSnoc(Segments(rest, i - begin), s[begin..i], Segments(s[i + 3..], 1), remove);
  }

  method ByteStreamToNalus(s: seq<octet>, removePreventionBytes: bool) returns (r: Parsed)
    ensures r == Parse(s, removePreventionBytes)
  {
    if !PictureStart(s) {
      return NoPictureStartCode;
    }
    var out: seq<seq<octet>> := [];
    var begin, i := 4, 4;
    ghost var whole := DecodeAll(Segments(s[4..], 0), removePreventionBytes);
    while i + 3 < |s|
      invariant 4 <= begin <= i <= |s| && begin < |s|
      invariant out + Remaining(s, begin, i, removePreventionBytes) == whole
      decreases |s| - i
    {
      if s[i] == 0 && s[i + 1] == 0 && s[i + 2] == 1 {
        CutHere(s, begin, i, removePreventionBytes);
        var nalu := MakeNalu(s[begin..i], removePreventionBytes);
        Assoc(out, [nalu], Remaining(s, i + 3, i + 4, removePreventionBytes));
        out := out + [nalu];
        i := i + 3;
        begin := i;
      } else {
        assert !StartCodeAt(s[begin..], i - begin);
      }
      i := i + 1;
    }
    var last := MakeNalu(s[begin..], removePreventionBytes);
    DecodeSnoc([s[begin..]], s[begin..], [], removePreventionBytes);
    r := Parsed(out + [last]);
  }

  /* ---- round trip ---- */

  lemma EscapeHead(n: seq<octet>)
    requires n != []
    ensures Escape(n) != [] && Escape(n)[0] == n[0]
  {
  }

  lemma CodeInTail(s: seq<octet>)
    requires s != []
    ensures HasStartCode(s) <==> StartCodeAt(s, 0) || HasStartCode(s[1..])
    ensures HasEscapedCode(s) <==> EscapedCodeAt(s, 0) || HasEscapedCode(s[1..])
  {
    var tail := s[1..];
    if i :| StartCodeAt(s, i) && i > 0 {
      assert StartCodeAt(tail, i - 1);
    }
    if i :| StartCodeAt(tail, i) {
      assert StartCodeAt(s, i + 1);
    }
    if i :| EscapedCodeAt(s, i) && i > 0 {
      assert EscapedCodeAt(tail, i - 1);
    }
    if i :| EscapedCodeAt(tail, i) {
      assert EscapedCodeAt(s, i + 1);
    }
  }

  /** Escaping adds bytes exactly when there is a start code to hide. */
  lemma {:induction false} EscapeLength(n: seq<octet>)
    ensures |Escape(n)| >= |n|
    ensures HasStartCode(n) ==> |Escape(n)| > |n|
    ensures !HasStartCode(n) ==> Escape(n) == n
    decreases |n|
  {
    if n != [] {
      CodeInTail(n);
      if StartCodeAt(n, 0) {
        EscapeLength(n[2..]);
      } else {
        EscapeLength(n[1..]);
        assert n == [n[0]] + n[1..];
      }
    }
  }

  /** No start code survives escaping. */
  lemma {:induction false} EscapeHidesCodes(n: seq<octet>)
    ensures !HasStartCode(Escape(n))
    decreases |n|
  {
    if n != [] {
      var k := if StartCodeAt(n, 0) then 2 else 1;
      var head: seq<octet> := if StartCodeAt(n, 0) then [0, 0, 3] else [n[0]];
      var e := Escape(n[k..]);
      EscapeHidesCodes(n[k..]);
      if i :| StartCodeAt(Escape(n), i) {
        assert Escape(n) == head + e;
        if i >= |head| {
          assert StartCodeAt(e, i - |head|);
        } else if k == 1 {
          EscapeHead(n[1..]);
          EscapeHead(n[1..][1..]);
        }
      }
    }
  }

  lemma {:induction false} UnescapeIdentity(n: seq<octet>)
    ensures Unescape(n) == n <==> !HasEscapedCode(n)
    decreases |n|
  {
    if n != [] {
      CodeInTail(n);
      if EscapedCodeAt(n, 0) {
        assert Unescape(n)[2] == 1 && n[2] == 3;
      } else {
        UnescapeIdentity(n[1..]);
        SamePrefix([n[0]], Unescape(n[1..]), n[1..]);
        assert n == [n[0]] + n[1..];
      }
    }
  }

  /** Removal of prevention bytes as the byte stream format means it: 0,0,3,1 stands for 0,0,1. */
  function Strip(s: seq<octet>): seq<octet>
    decreases |s|
  {
    if s == [] then []
    else if EscapedCodeAt(s, 0) then [0, 0] + Strip(s[3..])
    else [s[0]] + Strip(s[1..])
  }

  lemma EscapeStarts(n: seq<octet>)
    requires |Escape(n)| >= 3 && Escape(n)[0] == 0 && Escape(n)[1] == 3 && Escape(n)[2] == 1
    ensures |n| >= 3 && n[0] == 0 && n[1] == 3 && n[2] == 1
  {
    EscapeHead(n);
    EscapeHead(n[1..]);
    EscapeHead(n[1..][1..]);
  }

  lemma OnlyOwnCodes(n: seq<octet>)
    requires n != [] && !StartCodeAt(n, 0)
    ensures EscapedCodeAt(Escape(n), 0) ==> EscapedCodeAt(n, 0)
  {
    if EscapedCodeAt(Escape(n), 0) {
      assert Escape(n)[1..] == Escape(n[1..]);
      EscapeStarts(n[1..]);
    }
  }

  /** Every NAL unit without an escaped code of its own can be recovered from what is written. */
  lemma {:induction false} StripEscape(n: seq<octet>)
    requires !HasEscapedCode(n)
    ensures Strip(Escape(n)) == n
    decreases |n|
  {
    if n != [] {
      var e := Escape(n);
      if StartCodeAt(n, 0) {
        NoneInTail(n, 2);
        StripEscape(n[2..]);
        EscapeHead(n[2..]);
        assert e[3..] == Escape(n[2..]) && EscapedCodeAt(e, 0);
        assert [0, 0] + n[2..] == n;
      } else {
        NoneInTail(n, 1);
        StripEscape(n[1..]);
        assert e[1..] == Escape(n[1..]);
        OnlyOwnCodes(n);
        assert [n[0]] + n[1..] == n;
      }
    }
  }

  lemma NoneInTail(n: seq<octet>, k: nat)
    requires !HasEscapedCode(n) && k <= |n|
    ensures !HasEscapedCode(n[k..])
  {
    forall i | EscapedCodeAt(n[k..], i)
      ensures EscapedCodeAt(n, i + k)
    {
    }
  }

  /** A NAL unit that needs no prevention byte and holds nothing that looks like one. */
  ghost predicate Plain(n: seq<octet>, removePreventionBytes: bool)
  {
    !HasStartCode(n) && (removePreventionBytes ==> !HasEscapedCode(n))
  }

  lemma DecodeEscape(n: seq<octet>, remove: bool)
    ensures Decode(Escape(n), remove) == n <==> Plain(n, remove)
  {
    EscapeLength(n);
    UnescapeIdentity(Escape(n));
  }

  /** A start code is found exactly where a code-free segment ends. */
  lemma {:induction false} CutAfter(e: seq<octet>, rest: seq<octet>, i: nat)
    requires !HasStartCode(e) && i <= |e| && rest != []
    ensures Segments(e + (START_CODE + rest), i) == [e] + Segments(rest, 1)
    decreases |e| - i
  {
    var s := e + (START_CODE + rest);
    if i < |e| {
      assert !StartCodeAt(e, i);
      CutAfter(e, rest, i + 1);
    } else {
      assert s[..i] == e && s[i + 3..] == rest;
    }
  }

  lemma {:induction false} NoCut(s: seq<octet>, i: nat)
    requires forall j :: i <= j < |s| - 3 ==> !StartCodeAt(s, j)
    ensures Segments(s, i) == [s]
    decreases |s| - i
  {
    if i + 3 < |s| {
      NoCut(s, i + 1);
    }
  }

  /** A start code in the last three bytes is swallowed by the segment before it. */
  lemma SwallowedAtEnd(e: seq<octet>, i: nat)
    requires !HasStartCode(e)
    ensures Segments(e + START_CODE, i) == [e + START_CODE]
  {
    var s := e + START_CODE;
    forall j | i <= j < |s| - 3
      ensures !StartCodeAt(s, j)
    {
      assert !StartCodeAt(e, j);
    }
    NoCut(s, i);
  }

  lemma {:induction false} FirstSegment(s: seq<octet>, i: nat)
    ensures Segments(s, i) != [] && |Segments(s, i)[0]| >= if i < |s| then i else |s|
    decreases |s|, |s| - i
  {
    if i + 3 < |s| && !StartCodeAt(s, i) {
      FirstSegment(s, i + 1);
    }
  }

  /** A start code directly behind another one is swallowed: the segment is not empty. */
  lemma SwallowedAtStart(rest: seq<octet>)
    ensures Segments(START_CODE + rest, 1) != [] && Segments(START_CODE + rest, 1)[0] != []
  {
    FirstSegment(START_CODE + rest, 1);
  }

  /** Only the first NAL unit may be empty, and not when it is the last. */
  ghost predicate Parsable(nalus: seq<seq<octet>>, first: bool, remove: bool)
  {
    && nalus != [] && nalus[|nalus| - 1] != []
    && (forall n :: n in nalus ==> Plain(n, remove))
    && (forall i :: 0 <= i < |nalus| && (i > 0 || !first) ==> nalus[i] != [])
  }

  lemma ParsableTail(nalus: seq<seq<octet>>, first: bool, remove: bool)
    requires |nalus| >= 2
    ensures Parsable(nalus, first, remove)
        <==> Plain(nalus[0], remove) && (first || nalus[0] != []) && Parsable(nalus[1..], false, remove)
  {
    var tail := nalus[1..];
    assert nalus == [nalus[0]] + tail;
    assert forall i :: 0 <= i < |tail| ==> tail[i] == nalus[i + 1];
    if Parsable(tail, false, remove) {
      assert forall i :: 0 < i < |nalus| ==> nalus[i] == tail[i - 1];
    }
  }

  /** The first cut of a body, whatever follows it. */
  lemma FirstCut(n: seq<octet>, rest: seq<octet>, i: nat, tail: seq<seq<octet>>, remove: bool)
    requires rest != [] && i <= |Escape(n)|
    ensures DecodeAll(Segments(Escape(n) + (START_CODE + rest), i), remove) == [n] + tail
        <==> Plain(n, remove) && DecodeAll(Segments(rest, 1), remove) == tail
  {
    var e := Escape(n);
    EscapeHidesCodes(n);
    DecodeEscape(n, remove);
    CutAfter(e, rest, i);
    DecodeSnoc([e] + Segments(rest, 1), e, Segments(rest, 1), remove);
    ConsEqual(Decode(e, remove), DecodeAll(Segments(rest, 1), remove), n, tail);
  }

  lemma OnlySegment(n: seq<octet>, i: nat, remove: bool)
    ensures DecodeAll(Segments(Escape(n), i), remove) == [n] <==> Plain(n, remove)
  {
    var e := Escape(n);
    EscapeHidesCodes(n);
    DecodeEscape(n, remove);
    NoCut(e, i);
    DecodeSnoc([e], e, [], remove);
    ConsEqual(Decode(e, remove), [], n, []);
  }

  lemma EmptyLast(n: seq<octet>, i: nat, remove: bool)
    ensures |DecodeAll(Segments(Escape(n) + (START_CODE + []), i), remove)| == 1
  {
    var e := Escape(n);
    EscapeHidesCodes(n);
    SwallowedAtEnd(e, i);
    assert START_CODE + [] == START_CODE;
    DecodeSnoc([e + START_CODE], e + START_CODE, [], remove);
  }

  lemma {:induction false} SegmentsRoundTrip(nalus: seq<seq<octet>>, first: bool, remove: bool)
    requires nalus != [] && Body(nalus) != []
    ensures DecodeAll(Segments(Body(nalus), if first then 0 else 1), remove) == nalus
        <==> Parsable(nalus, first, remove)
    decreases |nalus|
  {
    var n, i := nalus[0], if first then 0 else 1;
    if |nalus| == 1 {
      assert nalus == [n];
      OnlySegment(n, i, remove);
    } else {
      var tail := nalus[1..];
      var rest := Body(tail);
      assert nalus == [n] + tail;
      ParsableTail(nalus, first, remove);
      if !first && n == [] {
        SwallowedAtStart(rest);
        assert Escape(n) + (START_CODE + rest) == START_CODE + rest;
        DecodeHead(Segments(START_CODE + rest, 1), remove);
      } else if rest == [] {
        BodyEmpty(tail);
        EmptyLast(n, i, remove);
      } else {
        EscapeLength(n);
        FirstCut(n, rest, i, tail, remove);
        SegmentsRoundTrip(tail, false, remove);
      }
    }
  }

  lemma ConsEqual<T>(x: T, xs: seq<T>, y: T, ys: seq<T>)
    ensures [x] + xs == [y] + ys <==> x == y && xs == ys
  {
    assert ([x] + xs)[0] == x && ([y] + ys)[0] == y;
    assert ([x] + xs)[1..] == xs && ([y] + ys)[1..] == ys;
  }

  lemma DecodeHead(segments: seq<seq<octet>>, remove: bool)
    requires segments != [] && segments[0] != []
    ensures DecodeAll(segments, remove) != [] && DecodeAll(segments, remove)[0] != []
  {
  }

  lemma BodyEmpty(nalus: seq<seq<octet>>)
    requires nalus != [] && Body(nalus) == []
    ensures nalus[|nalus| - 1] == []
  {
    EscapeLength(nalus[0]);
  }

  /** A stream is refused if and only if it is not longer than a picture start code or does not begin with
      one; otherwise there is at least one NAL unit. */
  lemma RefusedIff(s: seq<octet>, remove: bool)
    ensures Parse(s, remove) == NoPictureStartCode
       <==> |s| < 5 || s[0] != 0 || s[1] != 0 || s[2] != 0 || s[3] != 1
    ensures Parse(s, remove).Parsed? ==> Parse(s, remove).nalus != []
  {
    if |s| >= 5 {
      FirstSegment(s[4..], 0);
    }
  }

  /** Writing a picture and parsing it gives the same NAL units back if and only if there is at least
      one, no NAL unit contains a start code or (when prevention bytes are removed) an escaped one, and
      none is empty except possibly a first one that is not alone. */
  lemma StreamRoundTrip(nalus: seq<seq<octet>>, remove: bool)
    ensures Parse(Stream(nalus), remove) == Parsed(nalus) <==> Parsable(nalus, true, remove)
  {
    var s := Stream(nalus);
    if nalus != [] {
      assert s[4..] == Body(nalus);
      if Body(nalus) == [] {
        BodyEmpty(nalus);
      } else {
        SegmentsRoundTrip(nalus, true, remove);
      }
    }
  }

  /** A NAL unit that contains a start code does not come back, for example this one. */
  lemma PreventionByteNotUndone()
    ensures Parse(Stream([[7, 0, 0, 1, 9]]), true) == Parsed([[7, 0, 0, 1, 1, 9]])
  {
    var n, e: seq<octet> := [7, 0, 0, 1, 9], [7, 0, 0, 3, 1, 9];
    ExampleEscape(n, e);
    ExampleUnescape(e);
    NoCut(e, 0);
    DecodeSnoc([e], e, [], true);
    assert Stream([n])[4..] == e;
    assert Segments(Stream([n])[4..], 0) == [e];
  }

  lemma ExampleEscape(n: seq<octet>, e: seq<octet>)
    requires n == [7, 0, 0, 1, 9] && e == [7, 0, 0, 3, 1, 9]
    ensures Escape(n) == e
  {
    assert n[1..] == [0, 0, 1, 9] && n[1..][2..] == [1, 9] && [1, 9][1..] == [9] && [9][1..] == [];
    assert Escape([9]) == [9] && Escape([1, 9]) == [1, 9];
  }

  lemma ExampleUnescape(e: seq<octet>)
    requires e == [7, 0, 0, 3, 1, 9]
    ensures Unescape(e) == [7, 0, 0, 1, 1, 9]
  {
    assert [1, 9][1..] == [9] && [9][1..] == [];
    assert e[1..] == [0, 0, 3, 1, 9] && e[1..][3..] == [1, 9];
    assert Unescape([9]) == [9] && Unescape([1, 9]) == [1, 9];
    assert Unescape(e[1..]) == [0, 0, 1, 1, 9];
  }
}
