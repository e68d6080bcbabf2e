/** The base64 decoder of the server, against the encoding of section 4 of RFC 4648. */
module Base64 {
  import opened CString

  const DIGITS: string := "0123456789"
  const TABLE: string := UPPER + LOWER + DIGITS + "+/"

  type Byte = bv8

  /** `strchr (table, c)` from index `i` on: the terminating NUL counts, 65 stands for a null pointer. */
  function Strchr(c: char, i: nat): nat
    requires i <= 64
    decreases 64 - i
  {
    if i == 64 then (if c == NUL then 64 else 65)
    else if TABLE[i] == c then i
    else Strchr(c, i + 1)
  }

  /** The same by ranges of characters. */
  function Index(c: char): (r: nat)
    ensures r <= 65
  {
    if 'A' <= c <= 'Z' then c as int - 'A' as int
    else if 'a' <= c <= 'z' then c as int - 'a' as int + 26
    else if '0' <= c <= '9' then c as int - '0' as int + 52
    else if c == '+' then 62
    else if c == '/' then 63
    else if c == NUL then 64
    else 65
  }

  /** The character at each place of the table. */
  lemma TableAt(k: nat)
    requires k < 64
    ensures Index(TABLE[k]) == k
  {
    if k < 26 {
      Upper(k);
    } else if k < 52 {
      Lower(k - 26);
    } else if k < 62 {
      Digit(k - 52);
    }
  }

  lemma Upper(k: nat)
    requires k < 26
    ensures UPPER[k] as int == 'A' as int + k
  {
  }

  lemma Lower(k: nat)
    requires k < 26
    ensures LOWER[k] as int == 'a' as int + k
  {
  }

  lemma Digit(k: nat)
    requires k < 10
    ensures DIGITS[k] as int == '0' as int + k
  {
  }

  lemma {:induction false} StrchrFrom(c: char, i: nat)
    requires i <= 64 && (Index(c) < 64 ==> i <= Index(c))
    ensures Strchr(c, i) == Index(c)
    decreases 64 - i
  {
    if i < 64 {
      TableAt(i);
      if Index(c) < 64 {
        TableAt(Index(c));
      }
      if Index(c) == i {
        IndexIsInjective(c, TABLE[i]);
      }
      if TABLE[i] != c {
        StrchrFrom(c, i + 1);
      }
    }
  }

  lemma IndexIsInjective(c: char, d: char)
    requires Index(c) == Index(d) < 64
    ensures c == d
  {
  }

  /** Looking a character up in the table finds its index by ranges. */
  lemma {:induction false} StrchrIsIndex(c: char)
    ensures Strchr(c, 0) == Index(c)
  {
    StrchrFrom(c, 0);
  }

  predicate IsBase64(c: char) {
    c != NUL && Index(c) < 65
  }

  function Value(c: char): Byte {
    var p := Index(c);
    if p < 65 then p as Byte else 0
  }

  /** The alphabet of RFC 4648. A character of it counts as its place, a NUL as 64, and any other as 0. */
  lemma Alphabet(c: char)
    ensures TABLE == "ABCDEFGHIJKLMNOPQRSTUVWXYZ" + "abcdefghijklmnopqrstuvwxyz" + "0123456789" + "+/" && |TABLE| == 64
    ensures IsBase64(c) <==> c in TABLE
    ensures forall k :: 0 <= k < 64 && TABLE[k] == c ==> Value(c) == k as Byte
    ensures c !in TABLE ==> Value(c) == if c == NUL then 64 else 0
  {
    TableIsLong();
    forall k | 0 <= k < 64 && TABLE[k] == c
      ensures Index(c) == k
    {
      TableAt(k);
    }
    if IsBase64(c) {
      InTable(c);
    }
    if c in TABLE {
      var k :| 0 <= k < 64 && TABLE[k] == c;
      TableAt(k);
      assert Index(NUL) == 64;
    }
  }

  lemma TableIsLong()
    ensures |TABLE| == 64
  {
  }

  lemma InTable(c: char)
    requires IsBase64(c)
    ensures c in TABLE
  {
    TableIsLong();
    TableAt(Index(c));
    IndexIsInjective(c, TABLE[Index(c)]);
  }

  /** The three bytes the loop writes for four characters. */
  function First(a: char, b: char): Byte {
    (Value(a) << 2) | (Value(b) >> 4)
  }

  function Second(b: char, c: char): Byte {
    (Value(b) << 4) | (Value(c) >> 2)
  }

  function Third(c: char, d: char): Byte {
    (Value(c) << 6) | Value(d)
  }

  /** The first index from `i` on that is not a line break. */
  function Skip(src: string, i: nat): (r: nat)
    requires i < |src| && src[|src| - 1] == NUL
    ensures i <= r < |src|
    ensures !IsLineBreak(src[r]) && forall k :: i <= k < r ==> IsLineBreak(src[k])
    decreases |src| - i
  {
    if IsLineBreak(src[i]) then Skip(src, i + 1) else i
  }

  /** A quad that ends the data: one of its last three characters is outside the alphabet. */
  predicate Stops(src: string, i: nat)
    requires i + 4 <= |src|
  {
    !IsBase64(src[i + 1]) || !IsBase64(src[i + 2]) || !IsBase64(src[i + 3])
  }

  /** The loop from `i` on, with `n` characters to go, reads inside `src` only. */
  ghost predicate Readable(src: string, i: nat, n: int)
    decreases |src| - i
  {
    && i + 4 <= |src| && src[|src| - 1] == NUL
    && (Stops(src, i) || (i + 4 < |src| && (n == 4 || Readable(src, Skip(src, i + 4), n - 4))))
  }

  /** The bytes a quad contributes: all three, or fewer when it ends the data. */
  function QuadBytes(src: string, i: nat): (r: seq<Byte>)
    requires i + 4 <= |src|
  {
    var x, y, z := First(src[i], src[i + 1]), Second(src[i + 1], src[i + 2]), Third(src[i + 2], src[i + 3]);
    if !IsBase64(src[i + 1]) || !IsBase64(src[i + 2]) then [x]
    else if !IsBase64(src[i + 3]) then [x, y]
    else [x, y, z]
  }

  function Decoded(src: string, i: nat, n: int): seq<Byte>
    requires Readable(src, i, n)
    decreases |src| - i
  {
    QuadBytes(src, i) + if Stops(src, i) || n == 4 then [] else Decoded(src, Skip(src, i + 4), n - 4)
  }

  /** How many cells of the destination the loop and the final zero need. */
  function Room(src: string, i: nat, n: int): nat
    requires Readable(src, i, n)
    decreases |src| - i
  {
    if Stops(src, i) then 3 else if n == 4 then 4 else 3 + Room(src, Skip(src, i + 4), n - 4)
  }

  /** For a length that is a multiple of four, three cells for every four characters and one more do. */
  lemma {:induction false} RoomBound(src: string, i: nat, n: int)
    requires Readable(src, i, n) && n > 0 && n % 4 == 0
    ensures Room(src, i, n) <= 3 * (n / 4) + 1
    decreases |src| - i
  {
    if !Stops(src, i) && n != 4 {
      RoomBound(src, Skip(src, i + 4), n - 4);
    }
  }

  /** From index `i` on, with `n` characters to go and `k` bytes written, the loop stays inside the source
      and inside `cells` cells of the destination. */
  ghost predicate Safe(src: string, i: nat, n: int, k: nat, cells: nat) {
    Readable(src, i, n) && k + Room(src, i, n) <= cells
  }

  /** A text that ends after one character of a quad: the NUL counts as 64, so the byte has a bit too many. */
  lemma CutQuad(c: char, d: char, e: char)
    ensures QuadBytes([c, NUL, d, e], 0) == [(Value(c) << 2) | 4]
  {
    Alphabet(NUL);
  }

  // ---------- When the decoder stays inside its buffers ----------

  /** Four characters, the last three of the alphabet, and the line breaks after them. */
  datatype Group = Group(quad: string, gap: string)

  function Layout(groups: seq<Group>, tail: string): string {
    if groups == [] then tail else groups[0].quad + groups[0].gap + Layout(groups[1..], tail)
  }

  /** A quad that the loop goes on after. */
  predicate IsFull(quad: string) {
    |quad| == 4 && IsBase64(quad[1]) && IsBase64(quad[2]) && IsBase64(quad[3])
  }

  /** Full groups with all the line breaks after each, and a tail that does not start with one more:
      fewer than four characters, or a padded or otherwise final quad and whatever follows. */
  predicate IsLayout(groups: seq<Group>, tail: string) {
    if groups == [] then |tail| < 4 || !IsFull(tail[..4])
    else
      var rest := Layout(groups[1..], tail);
      && IsFull(groups[0].quad) && (forall k :: 0 <= k < |groups[0].gap| ==> IsLineBreak(groups[0].gap[k]))
      && (rest != [] ==> !IsLineBreak(rest[0]))
      && IsLayout(groups[1..], tail)
  }

  /** The length is that of some of the groups: the loop ends by it. */
  predicate EndsByLength(groups: seq<Group>, n: int) {
    0 < n <= 4 * |groups| && n % 4 == 0
  }

  lemma {:induction false} SafeFromIff(src: string, i: nat, groups: seq<Group>,
        tail: string, n: int, k: nat, cells: nat)
    requires IsLayout(groups, tail) && NUL !in Layout(groups, tail)
    requires At(src, i, Layout(groups, tail)) && |src| == i + |Layout(groups, tail)| + 1 && src[|src| - 1] == NUL
    ensures Safe(src, i, n, k, cells) <==>
            if EndsByLength(groups, n) then k + 3 * (n / 4) + 1 <= cells
            else |tail| >= 3 && k + 3 * |groups| + 3 <= cells
    decreases |groups|
  {
    hide Stops, Room, Readable, Skip;
    if groups == [] {
      TailIsSafeIff(src, i, tail, n);
    } else {
      var quad, gap, rest := groups[0].quad, groups[0].gap, Layout(groups[1..], tail);
      var j := i + 4 + |gap|;
      assert Layout(groups, tail) == quad + gap + rest;
      AtSplit(src, i, quad + gap, rest);
      AtSplit(src, i, quad, gap);
      FullQuad(src, i, quad, n);
      if n != 4 {
        assert rest != [] ==> src[j + 0] == rest[0];
        SkipGap(src, i + 4, gap);
        assert NUL !in rest;
        SafeFromIff(src, j, groups[1..], tail, n - 4, k + 3, cells);
      }
    }
  }

  lemma {:induction false} TailIsSafeIff(src: string, i: nat, tail: string, n: int)
    requires |tail| < 4 || !IsFull(tail[..4])
    requires NUL !in tail && At(src, i, tail) && |src| == i + |tail| + 1 && src[|src| - 1] == NUL
    ensures Readable(src, i, n) <==> |tail| >= 3
    ensures Readable(src, i, n) ==> Room(src, i, n) == 3
  {
    assert forall k :: 0 <= k < |tail| ==> src[i + k] == tail[k];
    assert |tail| >= 4 ==> tail[..4][1] == src[i + 1] && tail[..4][2] == src[i + 2] && tail[..4][3] == src[i + 3];
  }

  lemma FullQuad(src: string, i: nat, quad: string, n: int)
    requires IsFull(quad) && At(src, i, quad) && i + 4 < |src| && src[|src| - 1] == NUL
    ensures n == 4 ==> Readable(src, i, n) && Room(src, i, n) == 4
    ensures n != 4 ==> (Readable(src, i, n) <==> Readable(src, Skip(src, i + 4), n - 4))
    ensures n != 4 && Readable(src, i, n) ==> Room(src, i, n) == 3 + Room(src, Skip(src, i + 4), n - 4)
  {
    assert src[i + 1] == quad[1] && src[i + 2] == quad[2] && src[i + 3] == quad[3];
  }

  /** What a caller can check beforehand: with the text laid out as full groups and a tail, the decoder
      stays inside its buffers exactly if the length is a positive multiple of four that the groups cover
      and its bytes and the zero fit, or the tail has at least three characters, to stop at, and three
      cells for each group and three more fit. */
  lemma {:induction false} SafeIff(groups: seq<Group>, tail: string, n: int, cells: nat)
    requires IsLayout(groups, tail) && NUL !in Layout(groups, tail)
    ensures Safe(Layout(groups, tail) + [NUL], 0, n, 0, cells) <==>
            if EndsByLength(groups, n) then 3 * (n / 4) + 1 <= cells
            else |tail| >= 3 && 3 * |groups| + 3 <= cells
  {
    var src := Layout(groups, tail) + [NUL];
    SafeFromIff(src, 0, groups, tail, n, 0, cells);
  }

  /** Every text has such a layout. */
  lemma {:induction false} EveryTextHasALayout(t: string) returns (groups: seq<Group>, tail: string)
    ensures IsLayout(groups, tail) && Layout(groups, tail) == t
    decreases |t|
  {
    if |t| < 4 || !IsFull(t[..4]) {
      groups, tail := [], t;
    } else {
      var k := BreaksFrom(t, 4);
      var more;
      more, tail := EveryTextHasALayout(t[k..]);
      groups := [Group(t[..4], t[4..k])] + more;
      assert groups[1..] == more;
      assert t[..4] + t[4..k] + t[k..] == t;
    }
  }

  /** The first index from `i` on without a line break, or the length. */
  function BreaksFrom(t: string, i: nat): (k: nat)
    requires i <= |t|
    ensures i <= k <= |t| && (k < |t| ==> !IsLineBreak(t[k])) && forall j :: i <= j < k ==> IsLineBreak(t[j])
    decreases |t| - i
  {
    if i < |t| && IsLineBreak(t[i]) then BreaksFrom(t, i + 1) else i
  }

  /** One full group is not enough for a length of eight, nor for one that is no multiple of four: the
      decoder reads past the NUL, however much room there is. */
  lemma LengthTooLong(cells: nat)
    ensures !Safe("QUJD" + [NUL], 0, 8, 0, cells) && !Safe("QUJD" + [NUL], 0, 5, 0, cells)
  {
    var groups := [Group("QUJD", "")];
    assert groups[1..] == [] && Layout(groups, "") == "QUJD" + "" + Layout([], "") == "QUJD";
    assert IsLayout([], "");
    SafeIff(groups, "", 8, cells);
    SafeIff(groups, "", 5, cells);
  }

  // ---------- The code ----------

  /** One turn of the loop: write three bytes, then take back those the padding stands for. */
  method DecodeQuad(dest: array<Byte>, p0: nat, src: array<char>, i: nat, ghost text: string, ghost done: seq<Byte>)
      returns (p: nat, stop: bool)
    requires src.Length >= |text| >= i + 4 && Holds(src, text) && (dest as object) != (src as object)
    requires p0 == |done| && p0 + 3 <= dest.Length && dest[..p0] == done
    modifies dest
    ensures stop == Stops(text, i) && p <= p0 + 3 && Holds(src, text)
    ensures p == |done + QuadBytes(text, i)| && dest[..p] == done + QuadBytes(text, i)
  {
    p := p0;
    dest[p] := First(src[i], src[i + 1]);
    dest[p + 1] := Second(src[i + 1], src[i + 2]);
    dest[p + 2] := Third(src[i + 2], src[i + 3]);
    p := p + 3;
    stop := true;
    if !IsBase64(src[i + 1]) {
      p := p - 2;
    } else if !IsBase64(src[i + 2]) {
      p := p - 2;
    } else if !IsBase64(src[i + 3]) {
      p := p - 1;
    } else {
      stop := false;
    }
  }

  lemma DecodedStep(src: string, i: nat, n: int, done: seq<Byte>)
    requires Readable(src, i, n)
    ensures var d := done + QuadBytes(src, i);
            done + Decoded(src, i, n) ==
            if Stops(src, i) || n == 4 then d else d + Decoded(src, Skip(src, i + 4), n - 4)
    ensures !Stops(src, i) ==> |QuadBytes(src, i)| == 3
  {
    FullQuadBytes(src, i);
    hide QuadBytes, Stops;
    var q := QuadBytes(src, i);
    if Stops(src, i) || n == 4 {
      assert q + [] == q;
    } else {
      Assoc(done, q, Decoded(src, Skip(src, i + 4), n - 4));
    }
  }

  lemma FullQuadBytes(src: string, i: nat)
    requires i + 4 <= |src|
    ensures !Stops(src, i) ==> |QuadBytes(src, i)| == 3
  {
    hide First, Second, Third, IsBase64;
  }

  /** The inner loop: step over the line breaks after a quad. */
  method SkipBreaks(src: array<char>, i: nat, ghost text: string) returns (j: nat)
    requires src.Length >= |text| > i && Holds(src, text) && text[|text| - 1] == NUL
    ensures j == Skip(text, i)
  {
    j := i;
    while src[j] != NUL && IsLineBreak(src[j])
      invariant i <= j < |text| && Skip(text, i) == Skip(text, j)
      decreases |text| - j
    {
      j := j + 1;
    }
  }

  /** One turn of the loop, up to the test of `srclen`. `fault` marks an access outside the buffers, at
      which the model stops. */
  method Turn(dest: array<Byte>, p0: nat, src: array<char>, i0: nat, n0: int, ghost text: string, ghost done: seq<Byte>)
      returns (p: nat, i: nat, n: int, stop: bool, fault: bool, ghost now: seq<Byte>)
    requires src.Length == |text| > i0 && Holds(src, text) && text[|text| - 1] == NUL
    requires (dest as object) != (src as object)
    requires p0 == |done| <= dest.Length && dest[..p0] == done
    modifies dest
    ensures Holds(src, text)
    ensures if fault then !Safe(text, i0, n0, p0, dest.Length)
            else p == |now| <= dest.Length && dest[..p] == now
    ensures !fault && stop ==>
              && (Safe(text, i0, n0, p0, dest.Length) <==> p < dest.Length)
              && (Safe(text, i0, n0, p0, dest.Length) ==> now == done + Decoded(text, i0, n0))
    ensures !fault && !stop ==>
              && i0 < i < |text|
              && (Safe(text, i0, n0, p0, dest.Length) <==> Safe(text, i, n, p, dest.Length))
              && (Safe(text, i, n, p, dest.Length) ==> now + Decoded(text, i, n) == done + Decoded(text, i0, n0))
  {
    hide First, Second, Third;
    p, i, n, stop, fault, now := p0, i0, n0, false, false, done;
    if i + 4 > src.Length || p + 3 > dest.Length {
      fault := true;
      return;
    }
    now := done + QuadBytes(text, i);
    p, stop := DecodeQuad(dest, p, src, i, text, done);
    if !stop {
      if i + 4 == src.Length {
        fault := true;
        return;
      }
      i := SkipBreaks(src, i + 4, text);
      n := n - 4;
      stop := n == 0;
    }
    if Readable(text, i0, n0) {
      DecodedStep(text, i0, n0, done);
    }
  }

  /** `base64_decode`: the number of bytes, and the bytes themselves followed by a zero. It stays inside
      the buffers, which the source does not check, exactly under `Safe`. */
  method Decode(dest: array<Byte>, src: array<char>, srcLen: int, ghost text: string) returns (count: nat, fault: bool)
    requires src.Length == |text| > 0 && Holds(src, text) && text[|text| - 1] == NUL
    requires (dest as object) != (src as object)
    modifies dest
    ensures text[0] == NUL || srcLen == 0 ==> !fault && count == 0 && dest[..] == old(dest[..])
    ensures text[0] != NUL && srcLen != 0 ==> (fault <==> !Safe(text, 0, srcLen, 0, dest.Length))
    ensures text[0] != NUL && srcLen != 0 && !fault ==>
              count < dest.Length && dest[..count] == Decoded(text, 0, srcLen) && dest[count] == 0
  {
    if src[0] == NUL || srcLen == 0 {
      return 0, false;
    }
    ghost var done: seq<Byte> := [];
    var i, n, stop := 0, srcLen, false;
    count, fault := 0, false;
    while !stop && !fault
      invariant Holds(src, text) && i >= 0 && (!stop && !fault ==> i < |text|)
      invariant fault ==> !Safe(text, 0, srcLen, 0, dest.Length)
      invariant !fault ==> count == |done| <= dest.Length && dest[..count] == done
      invariant !fault && stop ==>
                  && (Safe(text, 0, srcLen, 0, dest.Length) <==> count < dest.Length)
                  && (Safe(text, 0, srcLen, 0, dest.Length) ==> done == Decoded(text, 0, srcLen))
      invariant !fault && !stop ==>
                  && (Safe(text, 0, srcLen, 0, dest.Length) <==> Safe(text, i, n, count, dest.Length))
                  && (Safe(text, i, n, count, dest.Length) ==> done + Decoded(text, i, n) == Decoded(text, 0, srcLen))
      decreases if stop || fault then 0 else |text| - i + 1
    {
      count, i, n, stop, fault, done := Turn(dest, count, src, i, n, text, done);
    }
    if !fault {
      if count == dest.Length {
        fault := true;
      } else {
        dest[count] := 0;
      }
    }
  }

  // ---------- The standard encoding ----------

  /** The character for a 6-bit group. */
  function Letter(x: Byte): char
    requires x < 64
  {
    TABLE[x as int]
  }

  /** Byte `k` of a group; those it does not have count as zero bits. */
  function ByteAt(g: seq<Byte>, k: nat): Byte {
    if k < |g| then g[k] else 0
  }

  /** The 6-bit groups of three bytes. */
  function Sextets(x: Byte, y: Byte, z: Byte): (r: (Byte, Byte, Byte, Byte))
    ensures r.0 < 64 && r.1 < 64 && r.2 < 64 && r.3 < 64
  {
    (x >> 2, ((x & 3) << 4) | (y >> 4), ((y & 15) << 2) | (z >> 6), z & 63)
  }

  /** One, two or three bytes as four characters, padded with equals signs. */
  function EncodeGroup(g: seq<Byte>): (r: string)
    requires 1 <= |g| <= 3
    ensures |r| == 4
  {
    var s := Sextets(g[0], ByteAt(g, 1), ByteAt(g, 2));
    [Letter(s.0), Letter(s.1), if |g| > 1 then Letter(s.2) else '=', if |g| > 2 then Letter(s.3) else '=']
  }

  function FirstGap(gaps: seq<string>): string {
    if gaps == [] then [] else gaps[0]
  }

  function OtherGaps(gaps: seq<string>): seq<string> {
    if gaps == [] then [] else gaps[1..]
  }

  /** The encoding of `b`, with a run of line breaks from `gaps` after each full group but the last. */
  function Encode(b: seq<Byte>, gaps: seq<string>): string {
    if b == [] then []
    else if |b| <= 3 then EncodeGroup(b)
    else
      EncodeGroup(b[..3]) + FirstGap(gaps) + Encode(b[3..], OtherGaps(gaps))
  }

  function Groups(b: seq<Byte>): nat {
    (|b| + 2) / 3
  }

  predicate AllBreaks(gaps: seq<string>) {
    forall g :: g in gaps ==> forall k :: 0 <= k < |g| ==> IsLineBreak(g[k])
  }

  lemma LetterValue(x: Byte)
    requires x < 64
    ensures var c := Letter(x); IsBase64(c) && Value(c) == x && !IsLineBreak(c) && c != NUL && c != '='
  {
    var k := x as int;
    TableAt(k);
    assert k as Byte == x;
  }

  lemma SextetsJoin(x: Byte, y: Byte, z: Byte)
    ensures var s := Sextets(x, y, z);
            (s.0 << 2) | (s.1 >> 4) == x && (s.1 << 4) | (s.2 >> 2) == y && (s.2 << 6) | s.3 == z
  {
  }

  /** What the four characters of a group are to the decoder. */
  lemma GroupValues(g: seq<Byte>)
    requires 1 <= |g| <= 3
    ensures var q := EncodeGroup(g);
            && First(q[0], q[1]) == g[0]
            && (|g| > 1 ==> Second(q[1], q[2]) == g[1])
            && (|g| > 2 ==> Third(q[2], q[3]) == g[2])
            && IsBase64(q[1]) && (IsBase64(q[2]) <==> |g| > 1) && (IsBase64(q[3]) <==> |g| > 2)
            && q[0] != NUL && forall k :: 0 <= k < 4 ==> !IsLineBreak(q[k])
  {
    var s := Sextets(g[0], ByteAt(g, 1), ByteAt(g, 2));
    SextetsJoin(g[0], ByteAt(g, 1), ByteAt(g, 2));
    LetterValue(s.0);
    LetterValue(s.1);
    LetterValue(s.2);
    LetterValue(s.3);
  }

  /** A quad that stands for a group decodes to it, and ends the data exactly if it is padded. */
  lemma GroupDecodes(src: string, i: nat, g: seq<Byte>)
    requires 1 <= |g| <= 3 && At(src, i, EncodeGroup(g))
    ensures QuadBytes(src, i) == g && (Stops(src, i) <==> |g| < 3)
    ensures !IsLineBreak(src[i]) && src[i] != NUL
  {
    var q := EncodeGroup(g);
    GroupValues(g);
    assert src[i + 0] == q[0] && src[i + 1] == q[1] && src[i + 2] == q[2] && src[i + 3] == q[3];
  }

  lemma {:induction false} SkipGap(src: string, i: nat, gap: string)
    requires At(src, i, gap) && i + |gap| < |src| && src[|src| - 1] == NUL && !IsLineBreak(src[i + |gap|])
    requires forall k :: 0 <= k < |gap| ==> IsLineBreak(gap[k])
    ensures Skip(src, i) == i + |gap|
    decreases |gap|
  {
    if gap != [] {
      assert src[i + 0] == gap[0];
      assert forall k :: 0 <= k < |gap| - 1 ==> src[i + 1 + k] == gap[1 + k] == gap[1..][k];
      SkipGap(src, i + 1, gap[1..]);
    }
  }

  lemma PrependQuad(src: string, i: nat, n: int, j: nat)
    requires i + 4 < |src| && src[|src| - 1] == NUL && !Stops(src, i) && n != 4
    requires j == Skip(src, i + 4) && Readable(src, j, n - 4)
    ensures Readable(src, i, n)
    ensures Decoded(src, i, n) == QuadBytes(src, i) + Decoded(src, j, n - 4)
  {
  }

  lemma {:induction false} LastQuad(src: string, i: nat, n: int)
    requires i + 4 < |src| && src[|src| - 1] == NUL && n == 4
    ensures Readable(src, i, n) && Decoded(src, i, n) == QuadBytes(src, i)
  {
  }

  lemma {:induction false} DecodeEncoded(src: string, i: nat, b: seq<Byte>, gaps: seq<string>, n: int)
    requires b != [] && AllBreaks(gaps) && n == 4 * Groups(b)
    requires At(src, i, Encode(b, gaps)) && i + |Encode(b, gaps)| < |src| && src[|src| - 1] == NUL
    ensures Readable(src, i, n) && Decoded(src, i, n) == b
    ensures !IsLineBreak(src[i]) && src[i] != NUL
    decreases |b|
  {
    hide QuadBytes, EncodeGroup, Stops, Decoded, Readable, Encode, Skip, AllBreaks, FirstGap, OtherGaps, At;
    if |b| <= 3 {
      ShortEncoding(b, gaps);
      GroupDecodes(src, i, b);
      LastQuad(src, i, n);
    } else {
      var g, gap := b[..3], FirstGap(gaps);
      var j := i + 4 + |gap|;
      GapsAndGroups(b, gaps);
      EncodedAt(src, i, b, gaps);
      GroupDecodes(src, i, g);
      DecodeEncoded(src, j, b[3..], OtherGaps(gaps), n - 4);
      SkipGap(src, i + 4, gap);
      PrependQuad(src, i, n, j);
      assert b == g + b[3..];
    }
  }

  lemma {:induction false} EmptyEncoding(gaps: seq<string>)
    ensures Solid(Encode([], gaps)) == 0
  {
  }

  lemma {:induction false} LongEncoding(b: seq<Byte>, gaps: seq<string>)
    requires |b| > 3
    ensures Encode(b, gaps) == EncodeGroup(b[..3]) + FirstGap(gaps) + Encode(b[3..], OtherGaps(gaps))
  {
  }

  lemma {:induction false} ShortEncoding(b: seq<Byte>, gaps: seq<string>)
    requires 1 <= |b| <= 3
    ensures Encode(b, gaps) == EncodeGroup(b) && Groups(b) == 1
  {
  }

  lemma GapsAndGroups(b: seq<Byte>, gaps: seq<string>)
    requires |b| > 3 && AllBreaks(gaps)
    ensures AllBreaks(OtherGaps(gaps)) && forall k :: 0 <= k < |FirstGap(gaps)| ==> IsLineBreak(FirstGap(gaps)[k])
    ensures Groups(b) == 1 + Groups(b[3..]) && Groups(b) != 1
  {
  }

  lemma {:induction false} EncodedAt(src: string, i: nat, b: seq<Byte>, gaps: seq<string>)
    requires |b| > 3 && At(src, i, Encode(b, gaps))
    ensures var gap, rest := FirstGap(gaps), Encode(b[3..], OtherGaps(gaps));
            && At(src, i, EncodeGroup(b[..3])) && At(src, i + 4, gap) && At(src, i + 4 + |gap|, rest)
            && |Encode(b, gaps)| == 4 + |gap| + |rest|
  {
    var gap, rest := FirstGap(gaps), Encode(b[3..], OtherGaps(gaps));
    AtSplit(src, i, EncodeGroup(b[..3]) + gap, rest);
    AtSplit(src, i, EncodeGroup(b[..3]), gap);
  }

  /** The number of characters of `s` that are not line breaks: what the caller passes as the length. */
  function Solid(s: string): nat {
    if s == [] then 0 else (if IsLineBreak(s[0]) then 0 else 1) + Solid(s[1..])
  }

  lemma {:induction false} SolidConcat(s: string, t: string)
    ensures Solid(s + t) == Solid(s) + Solid(t)
  {
    if s == [] {
      assert s + t == t;
    } else {
      assert (s + t)[1..] == s[1..] + t;
      SolidConcat(s[1..], t);
    }
  }

  lemma {:induction false} SolidBreaks(s: string)
    requires forall k :: 0 <= k < |s| ==> IsLineBreak(s[k])
    ensures Solid(s) == 0
  {
    if s != [] {
      SolidBreaks(s[1..]);
    }
  }

  lemma SolidGroup(g: seq<Byte>)
    requires 1 <= |g| <= 3
    ensures Solid(EncodeGroup(g)) == 4
  {
    GroupValues(g);
    FourSolid(EncodeGroup(g));
  }

  lemma {:induction false} FourSolid(q: string)
    requires |q| == 4 && forall k :: 0 <= k < 4 ==> !IsLineBreak(q[k])
    ensures Solid(q) == 4
  {
    assert Solid(q[3..]) == 1;
    assert q[2..][1..] == q[3..] && Solid(q[2..]) == 2;
    assert q[1..][1..] == q[2..] && Solid(q[1..]) == 3;
  }

  lemma {:induction false} SolidEncoded(b: seq<Byte>, gaps: seq<string>)
    requires AllBreaks(gaps)
    ensures Solid(Encode(b, gaps)) == 4 * Groups(b)
    decreases |b|
  {
    hide EncodeGroup, Encode, Solid, AllBreaks, FirstGap, OtherGaps;
    if b == [] {
      EmptyEncoding(gaps);
    } else if |b| <= 3 {
      ShortEncoding(b, gaps);
      SolidGroup(b);
    } else {
      var g, gap, rest := b[..3], FirstGap(gaps), Encode(b[3..], OtherGaps(gaps));
      GapsAndGroups(b, gaps);
      LongEncoding(b, gaps);
      SolidGroup(g);
      SolidBreaks(gap);
      SolidEncoded(b[3..], OtherGaps(gaps));
      SolidConcat(EncodeGroup(g), gap);
      SolidConcat(EncodeGroup(g) + gap, rest);
    }
  }

  /** Decoding the encoding of any non-empty byte string, with line breaks between groups, whatever
      follows it, and the number of its other characters as the length, gives the bytes back, in a
      buffer of three quarters of that length and one byte more. */
  lemma {:induction false} RoundTrip(b: seq<Byte>, gaps: seq<string>, after: string, src: string, n: int)
    requires b != [] && AllBreaks(gaps)
    requires src == Encode(b, gaps) + after + [NUL] && n == Solid(Encode(b, gaps))
    ensures src[0] != NUL && n != 0 && n % 4 == 0
    ensures Safe(src, 0, n, 0, 3 * (n / 4) + 1) && Decoded(src, 0, n) == b
  {
    hide QuadBytes, EncodeGroup, Encode, Decoded, Room, Readable, Stops, Solid, At, AllBreaks;
    var text := Encode(b, gaps);
    Assoc(text, after, [NUL]);
    EncodingAt(text, after + [NUL]);
    SolidEncoded(b, gaps);
    DecodeEncoded(text + (after + [NUL]), 0, b, gaps, 4 * Groups(b));
    RoomBound(text + (after + [NUL]), 0, 4 * Groups(b));
  }

  lemma EncodingAt(text: string, after: string)
    ensures At(text + after, 0, text)
  {
  }
}
