/** The frames of the summary data file: what a position in it shows, and when what it shows can
    still change as frames are appended. */
module SummaryFrames {
  import opened ByteCodec
  import opened RealKeyFile

  /** Longer data is never handed out. */
  const MAX_DATA: nat := 1000000

  /** [int: length][bytes]; the length keeps its low 32 bits. */
  function Frame(data: Bytes): Bytes { ToBE(|data|, 4) + data }

  /** What reading a position hands out: nothing for a length that is not between 1 and 999999
      (a negative length counts as huge) or for bytes that are not there. */
  function DataAt(file: Bytes, offset: int): Option<Bytes> {
    match ReadAt(file, offset, 4)
    case Err => None
    case Ok(b) =>
      if 0 < SignedBE(b) < MAX_DATA then
        match ReadAt(file, offset + 4, SignedBE(b))
        case Err => None
        case Ok(data) => Some(data)
      else None
  }

  predicate Shown(data: Bytes) { 0 < |data| < MAX_DATA }

  /** What a complete frame hands out. */
  function Visible(data: Bytes): Option<Bytes> {
    var n := |data| % 0x1_0000_0000;
    if 0 < n < MAX_DATA then Some(data[..n]) else None
  }

  // ---------- lengths ----------

  function Word(a: int, b: int, c: int, d: int): int { ((a * 256 + b) * 256 + c) * 256 + d }

  lemma FourBytes(s: Bytes)
    requires |s| == 4
    ensures FromBE(s) == Word(s[0], s[1], s[2], s[3])
    ensures SignedBE(s) == Word(Signed8(s[0]), s[1], s[2], s[3])
  {
    var s3, s2, s1 := s[..3], s[..2], s[..1];
    assert s[..3][..2] == s2 && s2[..1] == s1 && s1[..0] == [];
    assert FromBE(s1) == FromBE([]) * 256 + s1[0];
    assert FromBE(s2) == FromBE(s1) * 256 + s2[1];
    assert FromBE(s3) == FromBE(s2) * 256 + s3[2];
    assert SignedBE(s2) == SignedBE(s1) * 256 + s2[1];
    assert SignedBE(s3) == SignedBE(s2) * 256 + s3[2];
  }

  /** Whether a length is read signed or unsigned makes no difference below a million. */
  lemma LengthIsUnsigned(s: Bytes)
    requires |s| == 4
    ensures 0 < SignedBE(s) < MAX_DATA <==> 0 < FromBE(s) < MAX_DATA
    ensures 0 < FromBE(s) < MAX_DATA ==> SignedBE(s) == FromBE(s)
  {
    FourBytes(s);
  }

  lemma BytesOfWord(n: nat)
    ensures ToBE(n, 4) == [n / 0x100_0000 % 256, n / 0x1_0000 % 256, n / 0x100 % 256, n % 256]
  {
    assert ToBE(n / 0x100_0000, 1) == [n / 0x100_0000 % 256];
    assert ToBE(n / 0x1_0000, 2) == ToBE(n / 0x1_0000 / 256, 1) + [n / 0x1_0000 % 256];
    assert ToBE(n / 0x100, 3) == ToBE(n / 0x100 / 256, 2) + [n / 0x100 % 256];
  }

  lemma LowWord(n: nat)
    ensures FromBE(ToBE(n, 4)) == n % 0x1_0000_0000
  {
    hide ToBE, FromBE, SignedBE;
    BytesOfWord(n);
    FourBytes(ToBE(n, 4));
    WordOfDigits(n);
  }

  lemma WordOfDigits(n: nat)
    ensures Word(n / 0x100_0000 % 256, n / 0x1_0000 % 256, n / 0x100 % 256, n % 256) == n % 0x1_0000_0000
  {
    TopDigit(n);
    SecondDigit(n);
    ThirdDigit(n);
  }

  lemma TopDigit(n: nat)
    ensures n / 0x100_0000 % 256 * 0x100_0000 + n % 0x100_0000 == n % 0x1_0000_0000
  {
  }

  lemma SecondDigit(n: nat)
    ensures n / 0x1_0000 % 256 * 0x1_0000 + n % 0x1_0000 == n % 0x100_0000
  {
  }

  lemma ThirdDigit(n: nat)
    ensures n / 0x100 % 256 * 0x100 + n % 0x100 == n % 0x1_0000
  {
  }

  lemma {:induction false} FromConcat(p: Bytes, q: Bytes)
    ensures FromBE(p + q) == FromBE(p) * Pow256(|q|) + FromBE(q)
  {
    if q == [] {
      assert p + q == p;
    } else {
      var front := q[..|q| - 1];
      FromConcat(p, front);
      assert (p + q)[..|p + q| - 1] == p + front;
      Distribute(FromBE(p), Pow256(|front|), FromBE(front));
    }
  }

  lemma Distribute(a: nat, b: nat, c: nat)
    ensures (a * b + c) * 256 == a * (256 * b) + c * 256
  {
  }

  // ---------- complete frames ----------

  /** A complete frame shows the part of its data that its length field can tell. */
  lemma FrameShows(file: Bytes, at: nat, data: Bytes)
    requires Holds(file, at, Frame(data))
    ensures DataAt(file, at) == Visible(data)
  {
    hide ToBE, FromBE, SignedBE;
    var word := ToBE(|data|, 4);
    assert Frame(data) == [] + word + data;
    HoldsPart(file, at, [], word, data);
    LengthIsUnsigned(word);
    LowWord(|data|);
    var n := |data| % 0x1_0000_0000;
    assert Frame(data) == word + data[..n] + data[n..];
    HoldsPart(file, at, word, data[..n], data[n..]);
  }

  /** A frame hands out its data exactly when the length is strictly between 0 and a million. */
  lemma FrameShowsIff(file: Bytes, at: nat, data: Bytes)
    requires Holds(file, at, Frame(data))
    ensures DataAt(file, at) == Some(data) <==> Shown(data)
    ensures DataAt(file, at) == Some(data) <==> 0 < |data| < 1_000_000
  {
    hide DataAt;
    FrameShows(file, at, data);
    if Shown(data) {
      assert data[..|data|] == data;
    }
  }

  /** Of a frame that the end of the file may cut, what it shows is there or nothing is. */
  lemma CutFrameShows(file: Bytes, at: nat, data: Bytes, cut: nat)
    requires Holds(file, at, Frame(data)) && cut <= |file|
    ensures DataAt(file[..cut], at)
         == if Visible(data).Some? && at + 4 + |Visible(data).value| <= cut then Visible(data) else None
  {
    hide SignedBE, Visible, Frame;
    FrameShows(file, at, data);
    VisibleNeedsLength(file, at, data);
    if at + 4 <= cut {
      assert file[..cut][at..at + 4] == file[at..at + 4];
      var n := SignedBE(file[at..at + 4]);
      if 0 < n && at + 4 + n <= cut {
        assert file[..cut][at + 4..at + 4 + n] == file[at + 4..at + 4 + n];
      }
    }
  }

  lemma VisibleNeedsLength(file: Bytes, at: nat, data: Bytes)
    requires Holds(file, at, Frame(data))
    ensures at + 4 <= |file|
    ensures Visible(data).Some? ==> |Visible(data).value| == SignedBE(file[at..at + 4]) > 0
  {
    hide SignedBE, ToBE;
    FrameShows(file, at, data);
  }

  // ---------- positions that appended frames can still change ----------

  function Frames(datas: seq<Bytes>): Bytes {
    if datas == [] then [] else Frame(datas[0]) + Frames(datas[1..])
  }

  /** Nothing appended can change what the position shows: its length is in the file and is out of
      range or its data is in the file too; or the part of its length that is in the file makes it
      too long already. */
  predicate Settled(file: Bytes, at: nat) {
    if at + 4 <= |file| then
      var n := FromBE(file[at..at + 4]);
      n == 0 || n >= MAX_DATA || at + 4 + n <= |file|
    else if at < |file| then FromBE(file[at..]) * Pow256(at + 4 - |file|) >= MAX_DATA
    else false
  }

  lemma SettledStays(file: Bytes, at: nat, more: Bytes)
    requires Settled(file, at)
    ensures DataAt(file + more, at) == DataAt(file, at)
  {
    hide FromBE, SignedBE, Pow256;
    var longer := file + more;
    if at + 4 <= |file| {
      assert longer[at..at + 4] == file[at..at + 4];
      LengthIsUnsigned(file[at..at + 4]);
      var n := FromBE(file[at..at + 4]);
      if at + 4 + n <= |file| {
        assert longer[at + 4..at + 4 + n] == file[at + 4..at + 4 + n];
      }
    } else if at + 4 <= |longer| {
      var p, q := file[at..], more[..at + 4 - |file|];
      assert longer[at..at + 4] == p + q;
      FromConcat(p, q);
      LengthIsUnsigned(p + q);
    }
  }

  function Zeros(n: nat): (s: Bytes)
    ensures |s| == n
  {
    seq(n, _ => 0)
  }

  /** Later writes that make an unsettled position show something: enough data behind a length that
      is there, or bytes that complete the length, or a frame that starts at the position. */
  function Intruders(file: Bytes, at: nat): seq<Bytes> {
    if at + 4 <= |file| then [Zeros(MAX_DATA)]
    else if at < |file| then
      [Zeros(if |file| - at == 1 then 0x100 else if |file| - at == 2 then 0x1_0000 else 0x100_0000), Zeros(MAX_DATA)]
    else if at == |file| then [[0]]
    else if at == |file| + 1 then [[1] + Zeros(0xFF_FFFF)]
    else if at == |file| + 2 then [[0, 1] + Zeros(0xFFFE)]
    else if at == |file| + 3 then [[0, 0, 1] + Zeros(0xFD)]
    else [Zeros(at - |file| - 4), [0]]
  }

  lemma ShowsLength(file: Bytes, at: nat, n: nat)
    requires at + 4 + n <= |file| && FromBE(file[at..at + 4]) == n && 0 < n < MAX_DATA
    ensures DataAt(file, at).Some?
  {
    LengthIsUnsigned(file[at..at + 4]);
  }

  lemma UnsettledChanges(file: Bytes, at: nat)
    requires !Settled(file, at)
    ensures DataAt(file, at) == None
    ensures DataAt(file + Frames(Intruders(file, at)), at).Some?
  {
    hide FromBE, SignedBE, Pow256, Frame, DataAt;
    UnsettledShowsNothing(file, at);
    if at + 4 <= |file| {
      IntruderBehindLength(file, at);
    } else if at < |file| {
      IntruderInLength(file, at);
    } else {
      IntruderAtPosition(file, at);
    }
  }

  lemma UnsettledShowsNothing(file: Bytes, at: nat)
    requires !Settled(file, at)
    ensures DataAt(file, at) == None
  {
    hide FromBE, SignedBE;
    if at + 4 <= |file| {
      LengthIsUnsigned(file[at..at + 4]);
    }
  }

  lemma FramesOfOne(w: Bytes)
    ensures Frames([w]) == Frame(w)
  {
    hide Frame;
    assert [w][1..] == [] && Frame(w) + [] == Frame(w);
  }

  lemma FramesOfTwo(w: Bytes, v: Bytes)
    ensures Frames([w, v]) == Frame(w) + Frame(v)
  {
    hide Frame;
    FramesOfOne(v);
    assert [w, v][1..] == [v];
  }

  lemma IntruderBehindLength(file: Bytes, at: nat)
    requires !Settled(file, at) && at + 4 <= |file|
    ensures DataAt(file + Frames(Intruders(file, at)), at).Some?
  {
    hide FromBE, ToBE, DataAt;
    FramesOfOne(Zeros(MAX_DATA));
    var longer := file + Frame(Zeros(MAX_DATA));
    assert longer[at..at + 4] == file[at..at + 4];
    ShowsLength(longer, at, FromBE(file[at..at + 4]));
  }

  lemma IntruderInLength(file: Bytes, at: nat)
    requires !Settled(file, at) && at < |file| < at + 4
    ensures DataAt(file + Frames(Intruders(file, at)), at).Some?
  {
    hide FromBE, ToBE, DataAt, Pow256;
    var c := |file| - at;
    var size := if c == 1 then 0x100 else if c == 2 then 0x1_0000 else 0x100_0000;
    var w, p, q := Zeros(size), file[at..], ToBE(size, 4)[..4 - c];
    FramesOfTwo(w, Zeros(MAX_DATA));
    var longer := file + (Frame(w) + Frame(Zeros(MAX_DATA)));
    Seam(file, at, ToBE(size, 4), w + Frame(Zeros(MAX_DATA)));
    assert Frame(w) + Frame(Zeros(MAX_DATA)) == ToBE(size, 4) + (w + Frame(Zeros(MAX_DATA)));
    BytesOfWord(size);
    FromConcat(p, q);
    OneInFront(4 - c, q);
    MultipleBelow(FromBE(p), 4 - c);
    ShowsLength(longer, at, FromBE(p) * Pow256(4 - c) + 1);
  }

  /** Four bytes that begin in the file and end in what follows it. */
  lemma Seam(file: Bytes, at: nat, word: Bytes, more: Bytes)
    requires at < |file| < at + 4 && |word| == 4
    ensures (file + (word + more))[at..at + 4] == file[at..] + word[..4 - (|file| - at)]
  {
    var end := 4 - (|file| - at);
    assert file + (word + more) == file + word[..end] + (word[end..] + more);
  }

  lemma OneInFront(k: nat, q: Bytes)
    requires 1 <= k <= 3 && q == (if k == 1 then [1] else if k == 2 then [0, 1] else [0, 0, 1])
    ensures FromBE(q) == 1
  {
    assert FromBE([]) == 0;
    if k == 1 {
      assert [1][..0] == [];
    } else if k == 2 {
      assert [0, 1][..1] == [0] && [0][..0] == [];
      assert FromBE([0]) == 0;
    } else {
      assert [0, 0, 1][..2] == [0, 0] && [0, 0][..1] == [0] && [0][..0] == [];
      assert FromBE([0]) == 0 && FromBE([0, 0]) == 0;
    }
  }

  /** A multiple of 256 below a million stays below it with 1 added. */
  lemma MultipleBelow(v: nat, k: nat)
    requires 1 <= k <= 3 && v * Pow256(k) < MAX_DATA
    ensures v * Pow256(k) + 1 < MAX_DATA
  {
    Pow256Values();
  }

  lemma IntruderAtPosition(file: Bytes, at: nat)
    requires at >= |file|
    ensures DataAt(file + Frames(Intruders(file, at)), at).Some?
  {
    hide FromBE, ToBE, DataAt, SignedBE;
    var g := at - |file|;
    if g == 0 {
      FramesOfOne([0]);
      BytesOfWord(1);
      StartsWithOne(file + Frame([0]), at);
    } else if g <= 3 {
      IntruderBefore(file, at);
    } else {
      FramesOfTwo(Zeros(g - 4), [0]);
      BytesOfWord(1);
      var longer := file + (Frame(Zeros(g - 4)) + Frame([0]));
      assert longer[at..] == Frame([0]);
      assert longer[at..at + 4] == longer[at..][..4];
      StartsWithOne(longer, at);
    }
  }

  /** The last bytes of one length and the first bytes of its data read as a length of 1. */
  lemma IntruderBefore(file: Bytes, at: nat)
    requires |file| < at <= |file| + 3
    ensures DataAt(file + Frames(Intruders(file, at)), at).Some?
  {
    hide FromBE, ToBE, DataAt, SignedBE;
    var w := Intruders(file, at)[0];
    FramesOfOne(w);
    BytesOfWord(|w|);
    assert (file + Frame(w))[at..] == Frame(w)[at - |file|..];
    assert (file + Frame(w))[at..at + 4] == (file + Frame(w))[at..][..4];
    StartsWithOne(file + Frame(w), at);
  }

  lemma StartsWithOne(file: Bytes, at: nat)
    requires at + 5 <= |file| && file[at..at + 4] == [0, 0, 0, 1]
    ensures DataAt(file, at).Some?
  {
    hide DataAt, FromBE, SignedBE;
    FourBytes([0, 0, 0, 1]);
    ShowsLength(file, at, 1);
  }

  /** The exact condition: what a position shows stays the same through all later writes if and only
      if it is settled. */
  lemma PositionStaysIff(file: Bytes, at: nat)
    ensures (forall datas: seq<Bytes> :: DataAt(file + Frames(datas), at) == DataAt(file, at)) <==> Settled(file, at)
  {
    hide DataAt, Settled, Intruders;
    if Settled(file, at) {
      forall datas: seq<Bytes>
        ensures DataAt(file + Frames(datas), at) == DataAt(file, at)
      {
        SettledStays(file, at, Frames(datas));
      }
    } else {
      UnsettledChanges(file, at);
      var datas := Intruders(file, at);
      assert DataAt(file + Frames(datas), at) != DataAt(file, at);
    }
  }
}
