/** The touch report: a checksummed frame, its meaning, and an encoder for it. */
module TouchFrame {
  import opened Bytes

  const MAX_ID: nat := 5
  const POINT_LEN: nat := 6

  const GESTURE_POS: nat := 0
  const POINT_NUM: nat := 1
  const X_H_POS: nat := 2
  const X_L_POS: nat := 3
  const Y_H_POS: nat := 4
  const Y_L_POS: nat := 5
  const WEIGHT_POS: nat := 6
  const AREA_POS: nat := 7

  /** The build: how many touches the panel tracks, the length of a report and
      whether the ESD check and the pen time-out are compiled in. */
  datatype Panel = Panel(maxTouch: nat, bufSize: nat, esdCheck: bool, penCheck: bool)

  /** The buffer has room for every touch, as the comment beside its size demands. */
  predicate ValidPanel(p: Panel) {
    1 <= p.maxTouch && p.maxTouch * POINT_LEN + 3 <= p.bufSize < 256
  }

  const SHIPPED: Panel := Panel(1, 15, false, false)

  lemma ShippedPanelIsValid()
    ensures ValidPanel(SHIPPED)
  {
  }

  /** axs_esd_error: the gesture codes that report a controller exception. */
  predicate IsException(code: byte) {
    code == 0xa0 || code == 0xb0 || code == 0xc0
  }

  datatype Event = Event(x: nat, y: nat, weight: nat, flag: nat, id: nat, area: nat)

  /** AXS_TOUCH_DOWN and AXS_TOUCH_CONTACT; everything else lifts the finger. */
  predicate Down(e: Event) {
    e.flag == 0 || e.flag == 2
  }

  predicate InRange(p: Panel, e: Event) {
    e.x < 4096 && e.y < 4096 && e.weight < 256 && e.flag < 4 && e.area < 16 && e.id < MAX_ID && e.id < p.maxTouch
  }

  function Checksum(s: seq<byte>): byte {
    Sum(s) % 256
  }

  predicate ChecksumOk(buf: seq<byte>) {
    |buf| > 0 && Checksum(buf[..|buf| - 1]) == buf[|buf| - 1]
  }

  function IdAt(buf: seq<byte>, i: nat): nat
    requires i * POINT_LEN + AREA_POS < |buf|
  {
    buf[Y_H_POS + POINT_LEN * i] / 16
  }

  /** Twelve bits: the low nibble of one byte and the whole of the next. */
  function Coordinate(hi: byte, lo: byte): nat {
    Word(hi % 16, lo)
  }

  function EventAt(buf: seq<byte>, i: nat): Event
    requires i * POINT_LEN + AREA_POS < |buf|
  {
    var base := POINT_LEN * i;
    Event(
      Coordinate(buf[X_H_POS + base], buf[X_L_POS + base]),
      Coordinate(buf[Y_H_POS + base], buf[Y_L_POS + base]),
      buf[WEIGHT_POS + base],
      buf[X_H_POS + base] / 64,
      IdAt(buf, i),
      buf[AREA_POS + base] / 16)
  }

  datatype Report = Rejected | Gesture(code: byte) | Touches(events: seq<Event>)

  /** The points from i up to n: an id the controller does not use ends the list,
      an id this panel does not track spoils the frame. */
  function Scan(p: Panel, buf: seq<byte>, i: nat, n: nat): (r: Option<seq<Event>>)
    requires ValidPanel(p) && |buf| == p.bufSize && i <= n <= p.maxTouch
    ensures r.Some? ==> |r.value| <= n - i
    decreases n - i
  {
    if i == n || IdAt(buf, i) >= MAX_ID then Some([])
    else if IdAt(buf, i) >= p.maxTouch then None
    else
      match Scan(p, buf, i + 1, n)
      case None => None
      case Some(rest) => Some([EventAt(buf, i)] + rest)
  }

  function PointCount(p: Panel, buf: seq<byte>): (n: nat)
    requires ValidPanel(p) && |buf| == p.bufSize
    ensures n <= p.maxTouch
  {
    if buf[POINT_NUM] % 16 > p.maxTouch then p.maxTouch else buf[POINT_NUM] % 16
  }

  function Parse(p: Panel, buf: seq<byte>): (r: Report)
    requires ValidPanel(p) && |buf| == p.bufSize
    ensures r.Touches? ==> 0 < |r.events| <= p.maxTouch
  {
    if !ChecksumOk(buf) then Rejected
    else if buf[GESTURE_POS] != 0 then Gesture(buf[GESTURE_POS])
    else if p.esdCheck && buf[POINT_NUM] / 16 != 0 then Rejected
    else
      match Scan(p, buf, 0, PointCount(p, buf))
      case None => Rejected
      case Some(es) => if es == [] then Rejected else Touches(es)
  }

  // What a scan yields ---------------------------------------------------------

  /** k points are good and the list stops there. */
  predicate StopsAfter(p: Panel, buf: seq<byte>, i: nat, k: nat, n: nat)
    requires ValidPanel(p) && |buf| == p.bufSize && i <= k <= n <= p.maxTouch
  {
    (forall j :: i <= j < k ==> IdAt(buf, j) < MAX_ID && IdAt(buf, j) < p.maxTouch)
    && (k == n || IdAt(buf, k) >= MAX_ID)
  }

  lemma {:induction false} ScanIsLongestPrefix(p: Panel, buf: seq<byte>, i: nat, n: nat)
    requires ValidPanel(p) && |buf| == p.bufSize && i <= n <= p.maxTouch
    requires Scan(p, buf, i, n).Some?
    ensures var es := Scan(p, buf, i, n).value;
            StopsAfter(p, buf, i, i + |es|, n) && forall j :: 0 <= j < |es| ==> es[j] == EventAt(buf, i + j)
    decreases n - i
  {
    if i < n && IdAt(buf, i) < MAX_ID {
      ScanIsLongestPrefix(p, buf, i + 1, n);
    }
  }

  /** Point k is one this panel does not track, and the list reaches it. */
  predicate SpoiledAt(p: Panel, buf: seq<byte>, i: nat, k: nat, n: nat)
    requires ValidPanel(p) && |buf| == p.bufSize && n <= p.maxTouch
  {
    i <= k < n && p.maxTouch <= IdAt(buf, k) < MAX_ID && forall j :: i <= j < k ==> IdAt(buf, j) < MAX_ID
  }

  lemma {:induction false} ScanIsSpoiled(p: Panel, buf: seq<byte>, i: nat, n: nat) returns (k: nat)
    requires ValidPanel(p) && |buf| == p.bufSize && i <= n <= p.maxTouch
    requires Scan(p, buf, i, n).None?
    ensures SpoiledAt(p, buf, i, k, n)
    decreases n - i
  {
    k := i;
    if IdAt(buf, i) < p.maxTouch {
      k := ScanIsSpoiled(p, buf, i + 1, n);
    }
  }

  /** A frame with a good checksum, no gesture and no ESD status yields exactly the
      longest run of points before an unused id. */
  lemma ParseYieldsLongestPrefix(p: Panel, buf: seq<byte>, k: nat)
    requires ValidPanel(p) && |buf| == p.bufSize && ChecksumOk(buf) && buf[GESTURE_POS] == 0
    requires !(p.esdCheck && buf[POINT_NUM] / 16 != 0)
    requires 0 < k <= PointCount(p, buf)
    ensures StopsAfter(p, buf, 0, k, PointCount(p, buf)) ==>
              Parse(p, buf) == Touches(seq(k, j requires 0 <= j < k => EventAt(buf, j)))
    ensures Parse(p, buf).Touches? && |Parse(p, buf).events| == k ==> StopsAfter(p, buf, 0, k, PointCount(p, buf))
  {
    var n := PointCount(p, buf);
    if Scan(p, buf, 0, n).Some? {
      ScanIsLongestPrefix(p, buf, 0, n);
    }
    if StopsAfter(p, buf, 0, k, n) {
      if Scan(p, buf, 0, n).None? {
        var spoiled := ScanIsSpoiled(p, buf, 0, n);
        assert false;
      }
      var es := Scan(p, buf, 0, n).value;
      assert |es| == k;
      assert es == seq(k, j requires 0 <= j < k => EventAt(buf, j));
    }
  }

  lemma SpoiledExactly(p: Panel, buf: seq<byte>, n: nat)
    requires ValidPanel(p) && |buf| == p.bufSize && n <= p.maxTouch
    ensures Scan(p, buf, 0, n).None? <==> exists k: nat :: SpoiledAt(p, buf, 0, k, n)
  {
    if Scan(p, buf, 0, n).None? {
      var k := ScanIsSpoiled(p, buf, 0, n);
    } else if k: nat :| SpoiledAt(p, buf, 0, k, n) {
      ScanIsLongestPrefix(p, buf, 0, n);
    }
  }

  /** A frame is thrown away if and only if its checksum fails or, carrying no gesture,
      it reports an ESD status, names no point, starts with an unused id or reaches an
      id that the panel does not track. */
  lemma RejectedExactly(p: Panel, buf: seq<byte>)
    requires ValidPanel(p) && |buf| == p.bufSize
    ensures var n := PointCount(p, buf);
            Parse(p, buf) == Rejected <==>
            || !ChecksumOk(buf)
            || (buf[GESTURE_POS] == 0
                && ((p.esdCheck && buf[POINT_NUM] / 16 != 0)
                    || n == 0 || IdAt(buf, 0) >= MAX_ID
                    || exists k: nat :: SpoiledAt(p, buf, 0, k, n)))
  {
    SpoiledExactly(p, buf, PointCount(p, buf));
  }

  /** A frame is a gesture if and only if its checksum holds and its first byte, which is
      the code, is not zero. */
  lemma GestureExactly(p: Panel, buf: seq<byte>, code: byte)
    requires ValidPanel(p) && |buf| == p.bufSize
    ensures Parse(p, buf) == Gesture(code) <==> ChecksumOk(buf) && buf[0] == code && code != 0
  {
  }

  // Encoding -------------------------------------------------------------------

  function PointByte(e: Event, j: nat): (b: byte)
    requires e.x < 4096 && e.y < 4096 && e.weight < 256 && e.flag < 4 && e.area < 16 && e.id < 16
  {
    if j == 0 then e.flag * 64 + e.x / 256
    else if j == 1 then e.x % 256
    else if j == 2 then e.id * 16 + e.y / 256
    else if j == 3 then e.y % 256
    else if j == 4 then e.weight
    else e.area * 16
  }

  predicate Sendable(p: Panel, es: seq<Event>) {
    0 < |es| <= p.maxTouch && |es| < 16 && forall i :: 0 <= i < |es| ==> InRange(p, es[i])
  }

  function BodyByte(p: Panel, es: seq<Event>, k: nat): byte
    requires Sendable(p, es)
  {
    if k == GESTURE_POS then 0
    else if k == POINT_NUM then |es|
    else if (k - 2) / POINT_LEN < |es| then PointByte(es[(k - 2) / POINT_LEN], (k - 2) % POINT_LEN)
    else 0
  }

  function Body(p: Panel, es: seq<Event>): (s: seq<byte>)
    requires ValidPanel(p) && Sendable(p, es)
    ensures |s| == p.bufSize - 1
  {
    seq(p.bufSize - 1, k requires 0 <= k => BodyByte(p, es, k))
  }

  function Encode(p: Panel, es: seq<Event>): (s: seq<byte>)
    requires ValidPanel(p) && Sendable(p, es)
    ensures |s| == p.bufSize
  {
    Body(p, es) + [Checksum(Body(p, es))]
  }

  lemma PointRoundTrip(p: Panel, es: seq<Event>, i: nat)
    requires ValidPanel(p) && Sendable(p, es) && i < |es|
    ensures EventAt(Encode(p, es), i) == es[i]
  {
    var s := Encode(p, es);
    forall j | 0 <= j < POINT_LEN ensures s[2 + j + POINT_LEN * i] == PointByte(es[i], j) {
      PointBytes(p, es, i, j);
    }
    EventFromBytes(s, i, es[i]);
  }

  lemma EventFromBytes(buf: seq<byte>, i: nat, e: Event)
    requires i * POINT_LEN + AREA_POS < |buf|
    requires e.x < 4096 && e.y < 4096 && e.weight < 256 && e.flag < 4 && e.area < 16 && e.id < 16
    requires forall j :: 0 <= j < POINT_LEN ==> buf[2 + j + POINT_LEN * i] == PointByte(e, j)
    ensures EventAt(buf, i) == e
  {
    var base := POINT_LEN * i;
    assert buf[2 + 0 + base] == PointByte(e, 0) && buf[2 + 1 + base] == PointByte(e, 1);
    assert buf[2 + 2 + base] == PointByte(e, 2) && buf[2 + 3 + base] == PointByte(e, 3);
    assert buf[2 + 4 + base] == PointByte(e, 4) && buf[2 + 5 + base] == PointByte(e, 5);
    PointFields(e);
  }

  lemma PointFields(e: Event)
    requires e.x < 4096 && e.y < 4096 && e.weight < 256 && e.flag < 4 && e.area < 16 && e.id < 16
    ensures Coordinate(PointByte(e, 0), PointByte(e, 1)) == e.x && PointByte(e, 0) / 64 == e.flag
    ensures Coordinate(PointByte(e, 2), PointByte(e, 3)) == e.y && PointByte(e, 2) / 16 == e.id
    ensures PointByte(e, 4) == e.weight && PointByte(e, 5) / 16 == e.area
  {
    NibbleAndByte(e.flag * 4, e.x);
    NibbleAndByte(e.id, e.y);
    TopBits(e.flag, e.x / 256);
  }

  lemma NibbleAndByte(hi: nat, v: nat)
    requires hi < 16 && v < 4096
    ensures Coordinate(hi * 16 + v / 256, v % 256) == v && (hi * 16 + v / 256) / 16 == hi
  {
    NibbleUnique(hi, v / 256);
  }

  lemma NibbleUnique(hi: nat, lo: nat)
    requires lo < 16
    ensures (hi * 16 + lo) / 16 == hi && (hi * 16 + lo) % 16 == lo
  {
  }

  lemma TopBits(flag: nat, lo: nat)
    requires lo < 16
    ensures (flag * 64 + lo) / 64 == flag
  {
  }

  lemma PointBytes(p: Panel, es: seq<Event>, i: nat, j: nat)
    requires ValidPanel(p) && Sendable(p, es) && i < |es| && j < POINT_LEN
    ensures Encode(p, es)[2 + j + POINT_LEN * i] == PointByte(es[i], j)
  {
    var k := 2 + j + POINT_LEN * i;
    SixUnique(i, j);
    assert Encode(p, es)[k] == BodyByte(p, es, k);
  }

  lemma SixUnique(i: nat, j: nat)
    requires j < POINT_LEN
    ensures (j + POINT_LEN * i) / POINT_LEN == i && (j + POINT_LEN * i) % POINT_LEN == j
  {
  }

  lemma EncodeHead(p: Panel, es: seq<Event>)
    requires ValidPanel(p) && Sendable(p, es)
    ensures var s := Encode(p, es); s[GESTURE_POS] == 0 && s[POINT_NUM] == |es| && ChecksumOk(s)
  {
    var s := Encode(p, es);
    assert s[..|s| - 1] == Body(p, es);
    assert Body(p, es)[GESTURE_POS] == BodyByte(p, es, GESTURE_POS);
    assert Body(p, es)[POINT_NUM] == BodyByte(p, es, POINT_NUM);
  }

  /** A checked frame whose points are these events, all in range, parses to them. */
  lemma ParseOfPoints(p: Panel, s: seq<byte>, es: seq<Event>)
    requires ValidPanel(p) && Sendable(p, es) && |s| == p.bufSize && ChecksumOk(s)
    requires s[GESTURE_POS] == 0 && s[POINT_NUM] == |es|
    requires forall i :: 0 <= i < |es| ==> EventAt(s, i) == es[i]
    ensures Parse(p, s) == Touches(es)
  {
    forall i | 0 <= i < |es| ensures IdAt(s, i) == es[i].id {
      assert EventAt(s, i).id == IdAt(s, i);
    }
    assert StopsAfter(p, s, 0, |es|, PointCount(p, s));
    ParseYieldsLongestPrefix(p, s, |es|);
    assert seq(|es|, j requires 0 <= j < |es| => EventAt(s, j)) == es;
  }

  /** Parsing the encoding of any non-empty list of in-range events returns it. */
  lemma ParseOfEncode(p: Panel, es: seq<Event>)
    requires ValidPanel(p) && Sendable(p, es)
    ensures Parse(p, Encode(p, es)) == Touches(es)
  {
    var s := Encode(p, es);
    EncodeHead(p, es);
    forall i | 0 <= i < |es| ensures EventAt(s, i) == es[i] {
      PointRoundTrip(p, es, i);
    }
    ParseOfPoints(p, s, es);
  }

  /** Any change of a single byte of a frame that passes the check is caught. */
  lemma OneByteChangeIsRejected(p: Panel, buf: seq<byte>, k: nat, b: byte)
    requires ValidPanel(p) && |buf| == p.bufSize && ChecksumOk(buf)
    requires k < |buf| && b != buf[k]
    ensures Parse(p, buf[k := b]) == Rejected
  {
    var n := |buf| - 1;
    var buf' := buf[k := b];
    if k == n {
      assert buf'[..n] == buf[..n];
    } else {
      assert buf'[..n] == buf[..n][k := b];
      SumUpdate(buf[..n], k, b);
    }
  }
}
