/** What `request_parse_data` makes of the stored message: headers, folding, body. */
module MailParser {
  import opened CString

  const KEY_MAX_LEN: nat := 128
  const VALUE_MAX_LEN: nat := 1024
  const HEADER_MAX_LEN: nat := 20
  const BLANK: string := "\r\n\r\n"

  /** A blank line that is also the start of the terminator, as it is stored. */
  const LOST_BLANK: string := "\0\n.\r\n"

  /** The header buffers, as they stand in memory, and the parser's variables. `overrun` marks the
      point where the source would write to a 21st header, which it does not have. */
  datatype Parse = Parse(keys: seq<string>, values: seq<string>, count: nat, isKey: bool, curLen: nat,
                         done: bool, overrun: bool)

  /** The buffers have their declared sizes and `curLen` leaves room for a NUL. */
  ghost predicate Sized(p: Parse) {
    && |p.keys| == HEADER_MAX_LEN && |p.values| == HEADER_MAX_LEN
    && (forall k :: 0 <= k < HEADER_MAX_LEN ==> |p.keys[k]| == KEY_MAX_LEN && |p.values[k]| == VALUE_MAX_LEN)
    && p.curLen < (if p.isKey then KEY_MAX_LEN else VALUE_MAX_LEN)
  }

  function PutKey(p: Parse, c: char): (r: Parse)
    requires Sized(p) && p.count < HEADER_MAX_LEN && p.isKey
    ensures Sized(r)
  {
    p.(keys := p.keys[p.count := p.keys[p.count][p.curLen := c]])
  }

  function PutValue(p: Parse, c: char): (r: Parse)
    requires Sized(p) && p.count < HEADER_MAX_LEN
    ensures Sized(r)
  {
    p.(values := p.values[p.count := p.values[p.count][p.curLen := c]])
  }

  predicate FoldAt(data: string, i: nat) {
    i + 2 < |data| && data[i] == '\r' && data[i + 1] == '\n' && IsWsp(data[i + 2])
  }

  predicate BlankAt(data: string, i: nat) {
    i + 3 < |data| && data[i] == '\r' && data[i + 1] == '\n' && data[i + 2] == '\r' && data[i + 3] == '\n'
  }

  /** A character that is neither a colon after a key, nor a line end: kept while there is room. */
  function Keep(p: Parse, c: char): (r: Parse)
    requires Sized(p)
    ensures Sized(r)
  {
    if c == NUL || (p.isKey && c == ' ') then p
    else if p.curLen + 1 >= (if p.isKey then KEY_MAX_LEN else VALUE_MAX_LEN) then p
    else if p.count >= HEADER_MAX_LEN then p.(overrun := true)
    else if p.isKey then PutKey(p, c).(curLen := p.curLen + 1)
    else PutValue(p, c).(curLen := p.curLen + 1)
  }

  /** A line end: the value is complete, if there is a buffer for it. */
  function EndLine(p: Parse): (r: Parse)
    requires Sized(p)
    ensures Sized(r)
  {
    var q := if p.count < HEADER_MAX_LEN then PutValue(p, NUL) else p;
    q.(curLen := 0, isKey := true, count := p.count + 1)
  }

  /** One turn of the loop: the new state and the next index. */
  function Step(data: string, i: nat, p: Parse): (r: (Parse, nat))
    requires i < |data| && Sized(p)
    ensures Sized(r.0) && i < r.1 <= i + 5
  {
    var c := data[i];
    var blank := BlankAt(data, i);
    var q := if blank then p.(done := true) else p;
    var j := if blank then i + 2 else i;
    if c == ':' && p.isKey then
      if p.count >= HEADER_MAX_LEN then (q.(overrun := true), j + 2)
      else (PutKey(q, NUL).(isKey := false, curLen := 0), j + 2)
    else if FoldAt(data, j) then (q, j + 3)
    else if c == '\r' then (EndLine(q), j + 2)
    else (Keep(q, c), j + 1)
  }

  /** The loop from index `i` on: the state it ends in, and the index it ends at. */
  function Run(data: string, i: nat, p: Parse): (r: (Parse, nat))
    requires Sized(p)
    ensures Sized(r.0) && r.1 >= i
    decreases |data| - i
  {
    if i >= |data| || p.done || p.overrun then (p, i)
    else
      var (q, j) := Step(data, i, p);
      Run(data, j, q)
  }

  lemma {:induction false} RunOnce(data: string, i: nat, p: Parse)
    requires Sized(p) && i < |data| && !p.done && !p.overrun
    ensures Run(data, i, p) == Run(data, Step(data, i, p).1, Step(data, i, p).0)
  {
  }

  /** The parser's variables at its start, over whatever the fresh header buffers hold. */
  function Fresh(keys: seq<string>, values: seq<string>): Parse {
    Parse(keys, values, 0, true, 0, false, false)
  }

  /** The body: what follows the blank line. */
  function Body(data: string, r: (Parse, nat)): string {
    if r.0.done && r.1 < |data| then data[r.1..] else []
  }

  // ---------- Round trip ----------

  /** A header line: besides key and value the character behind the colon, mostly a space, and the one
      behind the CR, mostly an LF. */
  datatype Header = Header(key: string, blank: char, value: string, end: char)

  function PrintHeader(h: Header): string {
    h.key + [':', h.blank] + h.value + ['\r', h.end]
  }

  function PrintHeaders(hs: seq<Header>): string {
    if hs == [] then [] else PrintHeader(hs[0]) + PrintHeaders(hs[1..])
  }

  /** Headers, a blank line, and whatever follows it. */
  function PrintMail(hs: seq<Header>, rest: string): string {
    PrintHeaders(hs) + CRLF + rest
  }

  /** How many of `k` characters a buffer of `size` cells has room for, and what it keeps of a string. */
  function Fit(k: nat, size: nat): nat
    requires size > 0
  {
    if k < size then k else size - 1
  }

  function Clip(s: string, size: nat): (r: string)
    requires size > 0
    ensures r <= s && |r| < size && (|s| < size ==> r == s) && (|s| >= size ==> |r| == size - 1)
  {
    s[..Fit(|s|, size)]
  }

  /** `s` without the characters that are dropped. */
  function Without(s: string, dropped: set<char>): (r: string)
    ensures forall c :: c in r <==> c in s && c !in dropped
  {
    if s == [] then []
    else Without(s[..|s| - 1], dropped) + if s[|s| - 1] in dropped then [] else [s[|s| - 1]]
  }

  predicate GoodKey(key: string) {
    forall i :: 0 <= i < |key| ==> key[i] != ':' && key[i] != '\r'
  }

  predicate GoodValue(value: string) {
    '\r' !in value
  }

  /** Keys without colons and CRs, values without CRs, and no line that reads as a fold of the one before. */
  predicate Good(hs: seq<Header>) {
    && (forall i :: 0 <= i < |hs| ==> GoodKey(hs[i].key) && GoodValue(hs[i].value))
    && (forall i :: 0 < i < |hs| && hs[i - 1].end == '\n' && hs[i].key != [] ==> !IsWsp(hs[i].key[0]))
  }

  /** The last line ends in CRLF. */
  predicate EndInLf(hs: seq<Header>) {
    hs != [] ==> hs[|hs| - 1].end == '\n'
  }

  /** Buffer `buf` holds the C string `s`. */
  ghost predicate IsString(buf: string, s: string) {
    |s| < |buf| && buf[..|s|] == s && buf[|s|] == NUL && NUL !in s
  }

  /** What is kept of a key and of a value. */
  function KeyText(h: Header): (r: string)
    ensures var text := Without(h.key, {' ', NUL}); r == if |text| <= 127 then text else text[..127]
  {
    Clip(Without(h.key, {' ', NUL}), KEY_MAX_LEN)
  }

  function ValueText(h: Header): (r: string)
    ensures var text := Without(h.value, {NUL}); r == if |text| <= 1023 then text else text[..1023]
  {
    Clip(Without(h.value, {NUL}), VALUE_MAX_LEN)
  }

  ghost predicate IsHeader(key: string, value: string, h: Header) {
    IsString(key, KeyText(h)) && IsString(value, ValueText(h))
  }

  /** The first `n` header buffers hold the first `n` headers, cut to their size. */
  ghost predicate Recorded(p: Parse, hs: seq<Header>, n: nat)
    requires Sized(p) && n <= |hs| && n <= HEADER_MAX_LEN
  {
    forall k :: 0 <= k < n ==> IsHeader(p.keys[k], p.values[k], hs[k])
  }

  /** The parser is running, with room for header number `p.count`. */
  ghost predicate Going(p: Parse) {
    Sized(p) && !p.done && !p.overrun && p.count < HEADER_MAX_LEN
  }

  /** The loop started at `i` in state `p` comes to index `j` in state `q`. */
  ghost predicate Reaches(data: string, i: nat, p: Parse, j: nat, q: Parse)
    requires Sized(p)
    decreases j - i
  {
    || (i == j && p == q)
    || (i < j && i < |data| && !p.done && !p.overrun &&
        var (next, k) := Step(data, i, p);
        Reaches(data, k, next, j, q))
  }

  lemma {:induction false} ReachesRun(data: string, i: nat, p: Parse, j: nat, q: Parse)
    requires Sized(p) && Reaches(data, i, p, j, q)
    ensures Sized(q) && Run(data, i, p) == Run(data, j, q)
    decreases j - i
  {
    if i != j || p != q {
      hide Step;
      var (next, k) := Step(data, i, p);
      ReachesRun(data, k, next, j, q);
    }
  }

  lemma {:induction false} ReachesOn(data: string, i: nat, p: Parse, j: nat, q: Parse, k: nat, r: Parse)
    requires Sized(p) && Sized(q) && Reaches(data, i, p, j, q) && Reaches(data, j, q, k, r)
    ensures Reaches(data, i, p, k, r)
    decreases j - i
  {
    ReachesForward(data, j, q, k, r);
    if i != j || p != q {
      hide Step;
      var (next, m) := Step(data, i, p);
      ReachesOn(data, m, next, j, q, k, r);
    }
  }

  lemma {:induction false} ReachesForward(data: string, i: nat, p: Parse, j: nat, q: Parse)
    requires Sized(p) && Reaches(data, i, p, j, q)
    ensures i <= j
  {
  }

  lemma {:induction false} ReachesItself(data: string, i: nat, p: Parse)
    requires Sized(p)
    ensures Reaches(data, i, p, i, p)
  {
  }

  lemma {:induction false} OneStep(data: string, i: nat, p: Parse, j: nat, q: Parse)
    requires Sized(p) && i < |data| && !p.done && !p.overrun && Step(data, i, p) == (q, j)
    ensures Reaches(data, i, p, j, q)
  {
  }

  /** One more character of a text that is kept with some left out. */
  lemma {:induction false} WithoutOne(s: string, k: nat, dropped: set<char>)
    requires k < |s|
    ensures Without(s[..k + 1], dropped) == Without(s[..k], dropped) + if s[k] in dropped then [] else [s[k]]
    ensures s[..0] == [] && s[..|s|] == s
  {
    assert s[..k + 1][..k] == s[..k];
  }

  lemma {:induction false} NothingDropped(s: string, k: nat, dropped: set<char>)
    requires k <= |s| && forall i :: 0 <= i < |s| ==> s[i] !in dropped
    ensures Without(s[..k], dropped) == s[..k]
  {
    hide Without;
    WithoutNone(s, dropped);
    if k > 0 {
      NothingDropped(s, k - 1, dropped);
      WithoutOne(s, k - 1, dropped);
    }
  }

  lemma {:induction false} WithoutNone(s: string, dropped: set<char>)
    ensures Without(s[..0], dropped) == [] == s[..0]
  {
  }

  /** The cell for the next character of `text`, of which a buffer of `size` cells holds what fits. */
  ghost predicate Filled(buf: string, n: nat, text: string, size: nat)
    requires size > 0
  {
    n == Fit(|text|, size) && n <= |buf| && buf[..n] == text[..n]
  }

  lemma FilledOne(buf: string, n: nat, text: string, size: nat, c: char)
    requires size == |buf| > 0 && Filled(buf, n, text, size)
    ensures n + 1 < size ==> Filled(buf[n := c], n + 1, text + [c], size)
    ensures n + 1 >= size ==> Filled(buf, n, text + [c], size)
  {
  }

  lemma FilledIsString(buf: string, n: nat, text: string, size: nat)
    requires size == |buf| > 0 && Filled(buf, n, text, size) && NUL !in text
    ensures n < size && IsString(buf[n := NUL], Clip(text, size))
  {
    assert buf[n := NUL][..n] == buf[..n];
  }

  predicate SameFrom(a: string, b: string, n: nat) {
    |a| == |b| && forall m :: n <= m < |a| ==> a[m] == b[m]
  }

  /** One character of a key that is neither the colon nor a CR. */
  lemma KeyStep(data: string, i: nat, p: Parse, text: string) returns (q: Parse)
    requires Going(p) && p.isKey && i < |data| && data[i] != ':' && data[i] != '\r'
    requires Filled(p.keys[p.count], p.curLen, text, KEY_MAX_LEN)
    ensures Step(data, i, p) == (q, i + 1) && Going(q) && q == p.(keys := q.keys, curLen := q.curLen)
    ensures var text' := text + if data[i] in {' ', NUL} then [] else [data[i]];
            Filled(q.keys[p.count], q.curLen, text', KEY_MAX_LEN)
    ensures q.curLen >= p.curLen && SameFrom(q.keys[p.count], p.keys[p.count], q.curLen)
    ensures forall m :: 0 <= m < HEADER_MAX_LEN && m != p.count ==> q.keys[m] == p.keys[m]
  {
    hide Filled;
    q := Step(data, i, p).0;
    assert text + [] == text;
    FilledOne(p.keys[p.count], p.curLen, text, KEY_MAX_LEN, data[i]);
  }

  /** The characters of a key, up to its colon. */
  lemma {:induction false} ReadKeyText(data: string, i: nat, key: string, k: nat, p: Parse) returns (q: Parse)
    requires Going(p) && p.isKey && GoodKey(key) && k <= |key| && At(data, i, key)
    requires Filled(p.keys[p.count], p.curLen, Without(key[..k], {' ', NUL}), KEY_MAX_LEN)
    ensures Going(q) && q == p.(keys := q.keys, curLen := q.curLen)
    ensures Filled(q.keys[p.count], q.curLen, Without(key, {' ', NUL}), KEY_MAX_LEN)
    ensures q.curLen >= p.curLen && SameFrom(q.keys[p.count], p.keys[p.count], q.curLen)
    ensures Reaches(data, i + k, p, i + |key|, q)
    ensures forall m :: 0 <= m < HEADER_MAX_LEN && m != p.count ==> q.keys[m] == p.keys[m]
    decreases |key| - k
  {
    hide Step, Filled, Without;
    if k == |key| {
      q := p;
      assert key[..k] == key;
    } else {
      assert data[i + k] == key[k];
      WithoutOne(key, k, {' ', NUL});
      var next := KeyStep(data, i + k, p, Without(key[..k], {' ', NUL}));
      q := ReadKeyText(data, i, key, k + 1, next);
    }
  }

  lemma {:induction false} FilledNone(buf: string, s: string, dropped: set<char>, size: nat)
    requires size > 0
    ensures Filled(buf, 0, Without(s[..0], dropped), size)
  {
  }

  lemma ReadColon(data: string, i: nat, p: Parse, text: string) returns (q: Parse)
    requires Going(p) && p.isKey && i < |data| && data[i] == ':' && NUL !in text
    requires Filled(p.keys[p.count], p.curLen, text, KEY_MAX_LEN)
    ensures Going(q) && q == p.(keys := q.keys, isKey := false, curLen := 0)
    ensures Reaches(data, i, p, i + 2, q)
    ensures IsString(q.keys[p.count], Clip(text, KEY_MAX_LEN))
    ensures forall m :: 0 <= m < HEADER_MAX_LEN && m != p.count ==> q.keys[m] == p.keys[m]
  {
    hide Filled;
    q := Step(data, i, p).0;
    FilledIsString(p.keys[p.count], p.curLen, text, KEY_MAX_LEN);
    OneStep(data, i, p, i + 2, q);
  }

  lemma {:induction false} ReadKey(data: string, i: nat, key: string, p: Parse) returns (q: Parse)
    requires Going(p) && p.isKey && p.curLen == 0 && GoodKey(key) && At(data, i, key + ":")
    ensures Going(q) && q == p.(keys := q.keys, isKey := false)
    ensures Reaches(data, i, p, i + |key| + 2, q)
    ensures IsString(q.keys[p.count], Clip(Without(key, {' ', NUL}), KEY_MAX_LEN))
    ensures forall m :: 0 <= m < HEADER_MAX_LEN && m != p.count ==> q.keys[m] == p.keys[m]
  {
    hide Step, Reaches, Filled, At, Without, Clip;
    AtSplit(data, i, key, ":");
    AtFits(data, i + |key|, ":");
    FilledNone(p.keys[p.count], key, {' ', NUL}, KEY_MAX_LEN);
    var mid := ReadKeyText(data, i, key, 0, p);
    q := ReadColon(data, i + |key|, mid, Without(key, {' ', NUL}));
    ReachesOn(data, i, p, i + |key|, mid, i + |key| + 2, q);
  }

  /** One character of a value that is not a CR. */
  lemma ValueStep(data: string, i: nat, p: Parse, text: string) returns (q: Parse)
    requires Going(p) && !p.isKey && i < |data| && data[i] != '\r'
    requires Filled(p.values[p.count], p.curLen, text, VALUE_MAX_LEN)
    ensures Step(data, i, p) == (q, i + 1) && Going(q) && q == p.(values := q.values, curLen := q.curLen)
    ensures var text' := text + if data[i] in {NUL} then [] else [data[i]];
            Filled(q.values[p.count], q.curLen, text', VALUE_MAX_LEN)
    ensures forall m :: 0 <= m < HEADER_MAX_LEN && m != p.count ==> q.values[m] == p.values[m]
  {
    hide Filled;
    q := Step(data, i, p).0;
    assert text + [] == text;
    FilledOne(p.values[p.count], p.curLen, text, VALUE_MAX_LEN, data[i]);
  }

  lemma {:induction false} ReadValue(data: string, i: nat, value: string, k: nat, p: Parse) returns (q: Parse)
    requires Going(p) && !p.isKey && GoodValue(value) && k <= |value| && At(data, i, value)
    requires Filled(p.values[p.count], p.curLen, Without(value[..k], {NUL}), VALUE_MAX_LEN)
    ensures Going(q) && q == p.(values := q.values, curLen := q.curLen)
    ensures Filled(q.values[p.count], q.curLen, Without(value, {NUL}), VALUE_MAX_LEN)
    ensures Reaches(data, i + k, p, i + |value|, q)
    ensures forall m :: 0 <= m < HEADER_MAX_LEN && m != p.count ==> q.values[m] == p.values[m]
    decreases |value| - k
  {
    hide Step, Filled, Without;
    if k == |value| {
      q := p;
      assert value[..k] == value;
    } else {
      assert data[i + k] == value[k] && value[k] in value;
      WithoutOne(value, k, {NUL});
      var next := ValueStep(data, i + k, p, Without(value[..k], {NUL}));
      q := ReadValue(data, i, value, k + 1, next);
    }
  }

  lemma HeaderAt(data: string, i: nat, h: Header)
    requires At(data, i, h.key + [':', h.blank] + h.value)
    ensures At(data, i, h.key + ":") && At(data, i + |h.key| + 2, h.value)
  {
    AtSplit(data, i, h.key + [':', h.blank], h.value);
    assert h.key + [':', h.blank] == h.key + ":" + [h.blank];
    AtSplit(data, i, h.key + ":", [h.blank]);
  }

  /** The text of a header up to its line end. */
  lemma ReadHeader(data: string, i: nat, h: Header, p: Parse) returns (q: Parse)
    requires Going(p) && p.isKey && p.curLen == 0 && GoodKey(h.key) && GoodValue(h.value)
    requires At(data, i, h.key + ":") && At(data, i + |h.key| + 2, h.value)
    ensures Going(q) && q.count == p.count && !q.isKey
    ensures Reaches(data, i, p, i + |h.key| + 2 + |h.value|, q)
    ensures IsString(q.keys[p.count], KeyText(h))
    ensures Filled(q.values[p.count], q.curLen, Without(h.value, {NUL}), VALUE_MAX_LEN)
    ensures forall m :: 0 <= m < HEADER_MAX_LEN && m != p.count ==> q.keys[m] == p.keys[m] && q.values[m] == p.values[m]
  {
    hide Reaches, Step, At, Filled, Without, Clip;
    var mid := ReadKey(data, i, h.key, p);
    FilledNone(mid.values[mid.count], h.value, {NUL}, VALUE_MAX_LEN);
    q := ReadValue(data, i + |h.key| + 2, h.value, 0, mid);
    ReachesOn(data, i, p, i + |h.key| + 2, mid, i + |h.key| + 2 + |h.value|, q);
  }

  lemma EndLineIsString(p: Parse, text: string)
    requires Sized(p) && p.count < HEADER_MAX_LEN && NUL !in text
    requires Filled(p.values[p.count], p.curLen, text, VALUE_MAX_LEN)
    ensures IsString(EndLine(p).values[p.count], Clip(text, VALUE_MAX_LEN))
    ensures EndLine(p).keys == p.keys
    ensures forall m :: 0 <= m < HEADER_MAX_LEN && m != p.count ==> EndLine(p).values[m] == p.values[m]
  {
    hide Filled;
    FilledIsString(p.values[p.count], p.curLen, text, VALUE_MAX_LEN);
  }

  /** A header that another header line follows: the count goes up and the earlier ones stay. */
  lemma ReadHeaderLine(data: string, i: nat, h: Header, p: Parse) returns (q: Parse)
    requires Going(p) && p.isKey && p.curLen == 0 && GoodKey(h.key) && GoodValue(h.value)
    requires At(data, i, h.key + ":") && At(data, i + |h.key| + 2, h.value)
    requires var e := i + |PrintHeader(h)|;
             e < |data| && At(data, e - 2, ['\r', h.end]) && (h.end == '\n' ==> !IsWsp(data[e])) && data[e] != '\r'
    ensures Sized(q) && !q.done && !q.overrun && q.isKey && q.curLen == 0 && q.count == p.count + 1
    ensures Reaches(data, i, p, i + |PrintHeader(h)|, q)
    ensures IsHeader(q.keys[p.count], q.values[p.count], h)
    ensures forall m :: 0 <= m < HEADER_MAX_LEN && m != p.count ==> q.keys[m] == p.keys[m] && q.values[m] == p.values[m]
  {
    hide Reaches, Filled, Without;
    var mid := ReadHeader(data, i, h, p);
    var e := i + |PrintHeader(h)| - 2;
    assert data[e + 0] == ['\r', h.end][0] && data[e + 1] == ['\r', h.end][1];
    EndLineIsString(mid, Without(h.value, {NUL}));
    q := EndLine(mid);
    assert Step(data, e, mid) == (q, e + 2);
    OneStep(data, e, mid, e + 2, q);
    ReachesOn(data, i, p, e, mid, e + 2, q);
  }

  /** The last header, before a blank line: it is complete unless what follows starts with WSP,
      which makes the blank line read as a fold. */
  lemma ReadLastHeader(data: string, i: nat, h: Header, p: Parse) returns (q: Parse, end: nat)
    requires Going(p) && p.isKey && p.curLen == 0 && GoodKey(h.key) && GoodValue(h.value)
    requires At(data, i, h.key + ":") && At(data, i + |h.key| + 2, h.value)
    requires At(data, i + |PrintHeader(h)| - 2, BLANK)
    ensures Run(data, i, p) == (q, end) && Sized(q) && q.done && !q.overrun
    ensures var e := i + |PrintHeader(h)| + 2;
            if e < |data| && IsWsp(data[e]) then q.count == p.count && end == e + 1
            else q.count == p.count + 1 && end == e
    ensures q.count == p.count + 1 ==> IsHeader(q.keys[p.count], q.values[p.count], h)
    ensures forall m :: 0 <= m < HEADER_MAX_LEN && m != p.count ==> q.keys[m] == p.keys[m] && q.values[m] == p.values[m]
  {
    hide Reaches, Filled, Without;
    var mid := ReadHeader(data, i, h, p);
    var e := i + |PrintHeader(h)| - 2;
    assert data[e + 0] == BLANK[0] && data[e + 1] == BLANK[1] && data[e + 2] == BLANK[2] && data[e + 3] == BLANK[3];
    EndLineIsString(mid.(done := true), Without(h.value, {NUL}));
    ReachesRun(data, i, p, e, mid);
    q, end := Step(data, e, mid).0, Step(data, e, mid).1;
    assert Run(data, end, q) == (q, end);
  }

  /** All the headers but the last: the parser comes to the last one with the others recorded. */
  lemma {:induction false} ReadHeaders(data: string, i: nat, hs: seq<Header>, n: nat, p: Parse)
      returns (q: Parse, j: nat)
    requires n < |hs| <= HEADER_MAX_LEN && Good(hs)
    requires Going(p) && p.isKey && p.curLen == 0 && p.count == n && Recorded(p, hs, n)
    requires At(data, i, PrintHeaders(hs[n..]))
    ensures Going(q) && q.isKey && q.curLen == 0 && q.count == |hs| - 1 && Recorded(q, hs, |hs| - 1)
    ensures Reaches(data, i, p, j, q) && j + |PrintHeader(hs[|hs| - 1])| == i + |PrintHeaders(hs[n..])|
    ensures At(data, j, PrintHeader(hs[|hs| - 1]))
    decreases |hs| - n
  {
    hide Step, PrintHeader, Reaches, At, IsHeader;
    var h := hs[n];
    assert hs[n..][1..] == hs[n + 1..];
    if n + 1 == |hs| {
      assert PrintHeaders(hs[n..]) == PrintHeader(h);
      q, j := p, i;
      ReachesItself(data, i, p);
    } else {
      var rest := PrintHeaders(hs[n + 1..]);
      AtSplit(data, i, PrintHeader(h), rest);
      SplitHeader(data, i, h);
      assert hs[n + 1..][1..] == hs[n + 2..];
      FirstOfKey(data, i + |PrintHeader(h)|, hs[n + 1], PrintHeaders(hs[n + 2..]));
      var mid := ReadHeaderLine(data, i, h, p);
      q, j := ReadHeaders(data, i + |PrintHeader(h)|, hs, n + 1, mid);
      ReachesOn(data, i, p, i + |PrintHeader(h)|, mid, j, q);
    }
  }

  lemma SplitHeader(data: string, i: nat, h: Header)
    requires At(data, i, PrintHeader(h))
    ensures At(data, i, h.key + ":") && At(data, i + |h.key| + 2, h.value)
    ensures |PrintHeader(h)| >= 4 && At(data, i + |PrintHeader(h)| - 2, ['\r', h.end])
  {
    AtSplit(data, i, h.key + [':', h.blank] + h.value, ['\r', h.end]);
    HeaderAt(data, i, h);
  }

  /** What another header starts with. */
  lemma FirstOfKey(data: string, i: nat, h: Header, rest: string)
    requires GoodKey(h.key) && At(data, i, PrintHeader(h) + rest)
    ensures i < |data| && data[i] == (if h.key == [] then ':' else h.key[0]) != '\r'
  {
    var text := PrintHeader(h) + rest;
    assert data[i + 0] == text[0] == if h.key == [] then ':' else h.key[0];
  }

  /** Parsing what was printed: every header in its place, then whatever follows the blank line. It is
      exact if and only if what follows does not start with WSP; if it does, that character and the
      last header are lost. */
  lemma RoundTrip(hs: seq<Header>, rest: string, keys: seq<string>, values: seq<string>)
    requires Good(hs) && EndInLf(hs) && 0 < |hs| <= HEADER_MAX_LEN
    requires Sized(Fresh(keys, values))
    ensures var r := Run(PrintMail(hs, rest), 0, Fresh(keys, values));
            var n := if rest != [] && IsWsp(rest[0]) then |hs| - 1 else |hs|;
            && !r.0.overrun && r.0.count == n && Recorded(r.0, hs, n)
            && Body(PrintMail(hs, rest), r) == if n == |hs| then rest else rest[1..]
  {
    hide Run, Step, Reaches, At, IsHeader, PrintMail, PrintHeader, PrintHeaders;
    var data, last := PrintMail(hs, rest), hs[|hs| - 1];
    var end := |PrintHeaders(hs)|;
    assert hs[0..] == hs;
    MailParts(hs, rest);
    var q, j := ReadHeaders(data, 0, hs, 0, Fresh(keys, values));
    SplitHeader(data, j, last);
    assert CRLF + CRLF == BLANK;
    AtSplit(data, end - 2, CRLF, CRLF);
    ReachesRun(data, 0, Fresh(keys, values), j, q);
    var r, stop := ReadLastHeader(data, j, last, q);
  }

  lemma {:induction false} MailParts(hs: seq<Header>, rest: string)
    ensures var data, end := PrintMail(hs, rest), |PrintHeaders(hs)|;
            && At(data, 0, PrintHeaders(hs)) && At(data, end, CRLF)
            && end + 2 <= |data| && data[end + 2..] == rest
            && (rest != [] ==> end + 3 <= |data| && data[end + 2] == rest[0] && data[end + 3..] == rest[1..])
  {
    hide PrintHeaders;
    AtSplit(PrintMail(hs, rest), 0, PrintHeaders(hs), CRLF);
  }

  /** Printed headers are all complete at their end, unless what follows would fold or end the last one. */
  lemma ReadAll(data: string, hs: seq<Header>, p: Parse) returns (q: Parse)
    requires Good(hs) && 0 < |hs| <= HEADER_MAX_LEN && Going(p) && p.isKey && p.curLen == 0 && p.count == 0
    requires At(data, 0, PrintHeaders(hs))
    requires var end := |PrintHeaders(hs)|;
             end < |data| && (hs[|hs| - 1].end == '\n' ==> !IsWsp(data[end])) && data[end] != '\r'
    ensures Sized(q) && !q.done && !q.overrun && q.isKey && q.curLen == 0 && q.count == |hs|
    ensures Reaches(data, 0, p, |PrintHeaders(hs)|, q)
  {
    hide Run, Step, Reaches, PrintHeader, PrintHeaders;
    assert hs[0..] == hs;
    var last := hs[|hs| - 1];
    var mid, j := ReadHeaders(data, 0, hs, 0, p);
    SplitHeader(data, j, last);
    q := ReadHeaderLine(data, j, last, mid);
    ReachesOn(data, 0, p, j, mid, |PrintHeaders(hs)|, q);
  }

  lemma {:induction false} PrintHeadersAppend(a: seq<Header>, b: seq<Header>)
    ensures PrintHeaders(a + b) == PrintHeaders(a) + PrintHeaders(b)
  {
    if a == [] {
      assert a + b == b;
    } else {
      assert (a + b)[1..] == a[1..] + b;
      PrintHeadersAppend(a[1..], b);
    }
  }

  lemma {:induction false} FullOverruns(data: string, i: nat, p: Parse, key: string)
    requires Sized(p) && !p.done && p.count >= HEADER_MAX_LEN && p.isKey && p.curLen == 0
    requires GoodKey(key) && At(data, i, key + ":")
    ensures Run(data, i, p).0.overrun
    decreases |key|
  {
    var text := key + ":";
    assert data[i + 0] == text[0];
    var (q, j) := Step(data, i, p);
    if key != [] && key[0] in {' ', NUL} {
      assert text == [key[0]] + (key[1..] + ":");
      AtSplit(data, i, [key[0]], key[1..] + ":");
      FullOverruns(data, i + 1, p, key[1..]);
    } else {
      assert q.overrun;
    }
  }

  /** With more than 20 headers the source writes past its header buffers, whatever follows them. */
  lemma {:induction false} TooManyHeadersOverrun(hs: seq<Header>, rest: string, keys: seq<string>, values: seq<string>)
    requires Good(hs) && |hs| > HEADER_MAX_LEN
    requires Sized(Fresh(keys, values))
    ensures Run(PrintHeaders(hs) + rest, 0, Fresh(keys, values)).0.overrun
  {
    hide Run, Step, Reaches, PrintHeader;
    var data, a, b := PrintHeaders(hs) + rest, hs[..HEADER_MAX_LEN], hs[HEADER_MAX_LEN..];
    assert hs == a + b && a[0..] == a;
    PrintHeadersAppend(a, b);
    var end := |PrintHeaders(a)|;
    AtSplit(data, 0, PrintHeaders(a), PrintHeaders(b));
    FirstOfKey(data, end, b[0], PrintHeaders(b[1..]));
    AtSplit(data, end, PrintHeader(b[0]), PrintHeaders(b[1..]));
    SplitHeader(data, end, b[0]);
    var full := ReadAll(data, a, Fresh(keys, values));
    ReachesRun(data, 0, Fresh(keys, values), end, full);
    FullOverruns(data, end, full, b[0].key);
  }

  /** The text that is left of a blank line whose CR was overwritten as the start of the terminator:
      no line end, two characters of one more key, and the end of that header. */
  lemma {:induction false} RunsIntoEnd(data: string, i: nat, p: Parse)
    requires Sized(p) && p.isKey && p.curLen == 0 && !p.done && !p.overrun
    requires At(data, i, LOST_BLANK) && |data| == i + 5
    ensures var r := Run(data, i, p);
            if p.count >= HEADER_MAX_LEN then r.0.overrun
            else !r.0.overrun && r.0.count == p.count + 1 && Body(data, r) == []
  {
    hide Run;
    assert data[i + 0] == LOST_BLANK[0] && data[i + 1] == LOST_BLANK[1];
    assert data[i + 2] == LOST_BLANK[2] && data[i + 3] == LOST_BLANK[3];
    RunOnce(data, i, p);
    assert Step(data, i, p) == (p, i + 1);
    RunOnce(data, i + 1, p);
    var (q, j) := Step(data, i + 1, p);
    if p.count < HEADER_MAX_LEN {
      RunOnce(data, j, q);
      var (q', j') := Step(data, j, q);
      RunOnce(data, j', q');
      RunStops(data, i + 5, Step(data, j', q').0);
    } else {
      RunStops(data, j, q);
    }
  }

  lemma {:induction false} RunStops(data: string, i: nat, p: Parse)
    requires Sized(p) && (i >= |data| || p.done || p.overrun)
    ensures Run(data, i, p) == (p, i)
  {
  }

  /** Headers whose blank line runs into the terminator: there is no body, but one header more. */
  lemma {:induction false} LostBlankLine(hs: seq<Header>, keys: seq<string>, values: seq<string>)
    requires Good(hs) && 0 < |hs| <= HEADER_MAX_LEN
    requires Sized(Fresh(keys, values))
    ensures var data := PrintHeaders(hs) + LOST_BLANK;
            var r := Run(data, 0, Fresh(keys, values));
            if |hs| == HEADER_MAX_LEN then r.0.overrun
            else !r.0.overrun && r.0.count == |hs| + 1 && Body(data, r) == []
  {
    hide Run, Step, Reaches, PrintHeader, PrintHeaders, Body;
    var data, end := PrintHeaders(hs) + LOST_BLANK, |PrintHeaders(hs)|;
    AtSplit(data, 0, PrintHeaders(hs), LOST_BLANK);
    assert data[end + 0] == LOST_BLANK[0];
    var full := ReadAll(data, hs, Fresh(keys, values));
    ReachesRun(data, 0, Fresh(keys, values), end, full);
    RunsIntoEnd(data, end, full);
  }

  // ---------- Folding ----------

  lemma StepShift(data: string, data': string, d: nat, i: nat, p: Parse)
    requires Sized(p) && |data'| == |data| + d && i < |data|
    requires forall k :: i <= k < |data| ==> data'[k + d] == data[k]
    ensures Step(data', i + d, p) == (Step(data, i, p).0, Step(data, i, p).1 + d)
  {
    assert data'[i + d] == data[i];
    assert i + 1 < |data| ==> data'[i + 1 + d] == data[i + 1];
    assert i + 2 < |data| ==> data'[i + 2 + d] == data[i + 2];
    assert i + 3 < |data| ==> data'[i + 3 + d] == data[i + 3];
    assert i + 4 < |data| ==> data'[i + 4 + d] == data[i + 4];
  }

  /** What the parser does from an index on depends only on what is there. */
  lemma {:induction false} RunShift(data: string, data': string, d: nat, i: nat, p: Parse)
    requires Sized(p) && |data'| == |data| + d
    requires forall k :: i <= k < |data| ==> data'[k + d] == data[k]
    ensures Run(data', i + d, p) == (Run(data, i, p).0, Run(data, i, p).1 + d)
    decreases |data| - i
  {
    if i < |data| && !p.done && !p.overrun {
      hide Step;
      var (q, j) := Step(data, i, p);
      StepShift(data, data', d, i, p);
      RunShift(data, data', d, j, q);
    }
  }

  /** The parser, in state `q` at `pos`, is inside a value, or inside a key and not directly behind a line
      end, where one more would make a blank line. */
  predicate Foldable(data: string, pos: nat, q: Parse)
    requires pos <= |data|
  {
    q.isKey && pos >= 2 ==> data[pos - 2] != '\r' || data[pos - 1] != '\n'
  }

  /** Inserting a fold at `pos` does not change a step that ends before it, or at it unless it is a line end. */
  lemma StepBeforeFold(data: string, data': string, pos: nat, i: nat, p: Parse)
    requires Sized(p) && i < pos <= |data| && pos < |data'| && data'[pos] == '\r'
    requires forall m :: 0 <= m < pos ==> data'[m] == data[m]
    requires var (next, k) := Step(data, i, p); k <= pos && !next.done && (k == pos ==> Foldable(data, pos, next))
    ensures Step(data', i, p) == Step(data, i, p)
  {
    if data[i] == '\r' {
      assert !BlankAt(data, i);
      if !FoldAt(data, i) {
        assert data'[i + 1] == data[i + 1];
        assert i + 2 < pos ==> data'[i + 2] == data[i + 2];
        assert i + 3 < pos ==> data'[i + 3] == data[i + 3];
      } else {
        assert data'[i + 1] == data[i + 1] && data'[i + 2] == data[i + 2];
      }
    }
  }

  lemma FoldIsSkipped(data: string, pos: nat, p: Parse)
    requires Sized(p) && !p.done && pos + 2 < |data|
    requires data[pos] == '\r' && data[pos + 1] == '\n' && IsWsp(data[pos + 2])
    ensures Step(data, pos, p) == (p, pos + 3)
  {
  }

  lemma {:induction false} RunWithFold(data: string, data': string, pos: nat, w: char, i: nat, p: Parse, q: Parse)
    requires Sized(p) && i <= pos <= |data| && IsWsp(w)
    requires |data'| == |data| + 3 && data'[pos] == '\r' && data'[pos + 1] == '\n' && data'[pos + 2] == w
    requires forall m :: 0 <= m < pos ==> data'[m] == data[m]
    requires forall m :: pos <= m < |data| ==> data'[m + 3] == data[m]
    requires Reaches(data, i, p, pos, q) && Foldable(data, pos, q) && !q.done && !q.overrun
    ensures Run(data', i, p) == (Run(data, i, p).0, Run(data, i, p).1 + 3)
    decreases pos - i
  {
    hide Run, Step;
    if i == pos {
      FoldIsSkipped(data', pos, p);
      RunOnce(data', pos, p);
      RunShift(data, data', 3, pos, p);
    } else {
      var (next, k) := Step(data, i, p);
      ReachesForward(data, k, next, pos, q);
      ReachesUndone(data, k, next, pos, q);
      StepBeforeFold(data, data', pos, i, p);
      RunOnce(data, i, p);
      RunOnce(data', i, p);
      RunWithFold(data, data', pos, w, k, next, q);
    }
  }

  lemma {:induction false} ReachesUndone(data: string, i: nat, p: Parse, j: nat, q: Parse)
    requires Sized(p) && Reaches(data, i, p, j, q) && !q.done
    ensures !p.done && (i == j ==> p == q)
  {
  }

  /** Inserting CRLF and one space or tab where the parser is inside a header value or key changes neither
      the headers nor the body: the parser drops the WSP with the line break. */
  lemma {:induction false} FoldingIsInvisible(data: string, pos: nat, w: char,
        keys: seq<string>, values: seq<string>, q: Parse)
    requires Sized(Fresh(keys, values)) && pos <= |data| && IsWsp(w)
    requires Reaches(data, 0, Fresh(keys, values), pos, q) && Foldable(data, pos, q) && !q.done && !q.overrun
    ensures var data' := data[..pos] + ['\r', '\n', w] + data[pos..];
            var r, r' := Run(data, 0, Fresh(keys, values)), Run(data', 0, Fresh(keys, values));
            r'.0 == r.0 && Body(data', r') == Body(data, r)
  {
    var data' := data[..pos] + ['\r', '\n', w] + data[pos..];
    hide Run, Step, Reaches;
    Inserted(data, pos, w);
    RunWithFold(data, data', pos, w, 0, Fresh(keys, values), q);
    ReachesRun(data, 0, Fresh(keys, values), pos, q);
    var r := Run(data, 0, Fresh(keys, values));
  }

  lemma Inserted(data: string, pos: nat, w: char)
    requires pos <= |data|
    ensures var data' := data[..pos] + ['\r', '\n', w] + data[pos..];
            && |data'| == |data| + 3 && data'[pos] == '\r' && data'[pos + 1] == '\n' && data'[pos + 2] == w
            && (forall m :: 0 <= m < pos ==> data'[m] == data[m])
            && (forall m :: pos <= m < |data| ==> data'[m + 3] == data[m])
            && (forall k :: pos <= k <= |data| ==> data'[k + 3..] == data[k..])
  {
  }

  lemma HeaderAmong(hs: seq<Header>, rest: string, n: nat)
    requires n < |hs|
    ensures At(PrintMail(hs, rest), 0, PrintHeaders(hs[..n + 1]))
    ensures |PrintHeaders(hs[..n + 1])| == |PrintHeaders(hs[..n])| + |PrintHeader(hs[n])|
  {
    var a := hs[..n + 1];
    assert a == hs[..n] + [hs[n]] && hs == a + hs[n + 1..];
    PrintHeadersAppend(a, hs[n + 1..]);
    PrintHeadersAppend(hs[..n], [hs[n]]);
    assert [hs[n]][1..] == [];
    AtSplit(PrintMail(hs, rest), 0, PrintHeaders(a), PrintHeaders(hs[n + 1..]));
  }

  lemma PrefixAt(s: string, i: nat, part: string, k: nat)
    requires At(s, i, part) && k <= |part|
    ensures At(s, i, part[..k])
  {
  }

  /** The parser comes to every place in the value of every printed header. */
  lemma ReachValue(hs: seq<Header>, rest: string, n: nat, k: nat, p: Parse) returns (q: Parse, pos: nat)
    requires Good(hs) && n < |hs| && n < HEADER_MAX_LEN && k <= |hs[n].value|
    requires Going(p) && p.isKey && p.curLen == 0 && p.count == 0
    ensures pos == |PrintHeaders(hs[..n])| + |hs[n].key| + 2 + k <= |PrintMail(hs, rest)|
    ensures Reaches(PrintMail(hs, rest), 0, p, pos, q) && Going(q) && !q.isKey
  {
    hide Step, Reaches, PrintHeaders, PrintMail, Filled, Without, At;
    var data, h, a := PrintMail(hs, rest), hs[n], hs[..n + 1];
    HeaderAmong(hs, rest, n);
    assert a[0..] == a;
    var last, j := ReadHeaders(data, 0, a, 0, p);
    SplitHeader(data, j, h);
    var mid := ReadKey(data, j, h.key, last);
    var at := j + |h.key| + 2;
    pos := at + k;
    FilledNone(mid.values[mid.count], h.value[..k], {NUL}, VALUE_MAX_LEN);
    PrefixAt(data, at, h.value, k);
    q := ReadValue(data, at, h.value[..k], 0, mid);
    ReachesOn(data, 0, p, j, last, at, mid);
    ReachesOn(data, 0, p, at, mid, pos, q);
  }

  /** Folding a printed header: CRLF and one space or tab at any place in the value of any of the
      headers changes neither the headers nor the body. */
  lemma FoldedMailParsesAlike(hs: seq<Header>, rest: string, n: nat, k: nat, w: char,
        keys: seq<string>, values: seq<string>)
    requires Good(hs) && n < |hs| && n < HEADER_MAX_LEN && k <= |hs[n].value| && IsWsp(w)
    requires Sized(Fresh(keys, values))
    ensures var data, pos := PrintMail(hs, rest), |PrintHeaders(hs[..n])| + |hs[n].key| + 2 + k;
            && pos <= |data|
            && var data' := data[..pos] + ['\r', '\n', w] + data[pos..];
               var r, r' := Run(data, 0, Fresh(keys, values)), Run(data', 0, Fresh(keys, values));
               r'.0 == r.0 && Body(data', r') == Body(data, r)
  {
    hide Run, Step, Reaches, PrintHeaders, PrintMail, Body;
    var q, pos := ReachValue(hs, rest, n, k, Fresh(keys, values));
    FoldingIsInvisible(PrintMail(hs, rest), pos, w, keys, values, q);
  }

  /** The parser comes to every place in every printed key. */
  lemma ReachKey(hs: seq<Header>, rest: string, n: nat, k: nat, p: Parse) returns (q: Parse, pos: nat)
    requires Good(hs) && n < |hs| && n < HEADER_MAX_LEN && k <= |hs[n].key|
    requires Going(p) && p.isKey && p.curLen == 0 && p.count == 0
    ensures pos == |PrintHeaders(hs[..n])| + k <= |PrintMail(hs, rest)|
    ensures Reaches(PrintMail(hs, rest), 0, p, pos, q) && Going(q) && q.isKey
    ensures n == 0 ==> pos == k
    ensures k > 0 ==> PrintMail(hs, rest)[pos - 1] == hs[n].key[k - 1]
    ensures k > 1 ==> PrintMail(hs, rest)[pos - 2] == hs[n].key[k - 2]
    ensures k == 1 && n > 0 ==> PrintMail(hs, rest)[pos - 2] == hs[n - 1].end
  {
    hide Step, Reaches, PrintHeaders, PrintMail, Filled, Without, At;
    var data, h, a := PrintMail(hs, rest), hs[n], hs[..n + 1];
    HeaderAmong(hs, rest, n);
    assert a[0..] == a;
    NoHeaders();
    assert n == 0 ==> hs[..n] == [];
    var last, j := ReadHeaders(data, 0, a, 0, p);
    SplitHeader(data, j, h);
    AtSplit(data, j, h.key, ":");
    AtFits(data, j, h.key);
    pos := j + k;
    FilledNone(last.keys[last.count], h.key[..k], {' ', NUL}, KEY_MAX_LEN);
    PrefixAt(data, j, h.key, k);
    q := ReadKeyText(data, j, h.key[..k], 0, last);
    ReachesOn(data, 0, p, j, last, pos, q);
    KeyCharacters(data, j, h.key, k);
    if k == 1 && n > 0 {
      EndBefore(hs, rest, n);
    }
  }

  lemma KeyCharacters(data: string, j: nat, key: string, k: nat)
    requires At(data, j, key) && k <= |key|
    ensures k > 0 ==> j + k <= |data| && data[j + k - 1] == key[k - 1]
    ensures k > 1 ==> data[j + k - 2] == key[k - 2]
  {
    assert k > 0 ==> data[j + (k - 1)] == key[k - 1];
    assert k > 1 ==> data[j + (k - 2)] == key[k - 2];
  }

  lemma EndBefore(hs: seq<Header>, rest: string, n: nat)
    requires 0 < n < |hs|
    ensures var e := |PrintHeaders(hs[..n])|;
            0 < e <= |PrintMail(hs, rest)| && PrintMail(hs, rest)[e - 1] == hs[n - 1].end
  {
    hide PrintHeaders, PrintMail, At;
    HeaderAmong(hs, rest, n - 1);
    var data, a, h := PrintMail(hs, rest), PrintHeaders(hs[..n - 1]), hs[n - 1];
    assert hs[..n] == hs[..n - 1] + [h];
    PrintHeadersAppend(hs[..n - 1], [h]);
    OneHeader(h);
    AtSplit(data, 0, a, PrintHeader(h));
    LastOfHeader(data, |a|, h);
  }

  lemma NoHeaders()
    ensures PrintHeaders([]) == []
  {
  }

  lemma OneHeader(h: Header)
    ensures PrintHeaders([h]) == PrintHeader(h)
  {
    assert [h][1..] == [];
  }

  lemma LastOfHeader(data: string, i: nat, h: Header)
    requires At(data, i, PrintHeader(h))
    ensures i + |PrintHeader(h)| <= |data| && |PrintHeader(h)| > 0 && data[i + |PrintHeader(h)| - 1] == h.end
  {
    var text := PrintHeader(h);
    assert data[i + (|text| - 1)] == text[|text| - 1];
  }

  /** Folding a printed key: the same at any place of a key but its start. */
  lemma FoldedKeyParsesAlike(hs: seq<Header>, rest: string, n: nat, k: nat, w: char,
        keys: seq<string>, values: seq<string>)
    requires Good(hs) && n < |hs| && n < HEADER_MAX_LEN && 0 < k <= |hs[n].key| && IsWsp(w)
    requires k == 1 && n > 0 ==> hs[n - 1].end != '\r'
    requires Sized(Fresh(keys, values))
    ensures var data, pos := PrintMail(hs, rest), |PrintHeaders(hs[..n])| + k;
            && pos <= |data|
            && var data' := data[..pos] + ['\r', '\n', w] + data[pos..];
               var r, r' := Run(data, 0, Fresh(keys, values)), Run(data', 0, Fresh(keys, values));
               r'.0 == r.0 && Body(data', r') == Body(data, r)
  {
    hide Run, Step, Reaches, PrintHeaders, PrintMail, Body;
    var q, pos := ReachKey(hs, rest, n, k, Fresh(keys, values));
    assert k > 1 ==> hs[n].key[k - 2] != '\r';
    FoldingIsInvisible(PrintMail(hs, rest), pos, w, keys, values, q);
  }

  /** A line without a colon counts as a header: its characters go to the key, which is not ended, and the
      value is ended at the same place, so the rest of both is what was in memory. */
  lemma LineWithoutColon(data: string, i: nat, line: string, end: char, p: Parse) returns (q: Parse)
    requires Going(p) && p.isKey && p.curLen == 0 && GoodKey(line) && At(data, i, line + ['\r', end])
    requires var e := i + |line|;
             end == '\n' ==> e + 2 < |data| && !IsWsp(data[e + 2]) && data[e + 2] != '\r'
    ensures var text := Without(line, {' ', NUL});
            var n := Fit(|text|, KEY_MAX_LEN);
            && Sized(q) && q == p.(keys := q.keys, values := q.values, count := p.count + 1)
            && q.keys[p.count] == text[..n] + p.keys[p.count][n..]
            && q.values[p.count] == p.values[p.count][n := NUL]
            && forall m :: 0 <= m < HEADER_MAX_LEN && m != p.count ==>
                  q.keys[m] == p.keys[m] && q.values[m] == p.values[m]
    ensures Reaches(data, i, p, i + |line| + 2, q)
  {
    hide Reaches, At, Without, Filled, Step;
    var e, text := i + |line|, Without(line, {' ', NUL});
    AtSplit(data, i, line, ['\r', end]);
    FilledNone(p.keys[p.count], line, {' ', NUL}, KEY_MAX_LEN);
    var mid := ReadKeyText(data, i, line, 0, p);
    q := StepAtCr(data, e, end, mid);
    FilledText(mid.keys[p.count], p.keys[p.count], mid.curLen, text, KEY_MAX_LEN);
    ReachesOn(data, i, p, e, mid, e + 2, q);
  }

  lemma StepAtCr(data: string, e: nat, end: char, p: Parse) returns (q: Parse)
    requires Going(p) && At(data, e, ['\r', end])
    requires end == '\n' ==> e + 2 < |data| && !IsWsp(data[e + 2]) && data[e + 2] != '\r'
    ensures q == EndLine(p) && Sized(q) && Reaches(data, e, p, e + 2, q)
  {
    q := EndLine(p);
    assert data[e + 0] == ['\r', end][0] && data[e + 1] == ['\r', end][1];
    OneStep(data, e, p, e + 2, q);
  }

  lemma FilledText(buf: string, old': string, n: nat, text: string, size: nat)
    requires size == |buf| > 0 && Filled(buf, n, text, size) && SameFrom(buf, old', n)
    ensures n == Fit(|text|, size) && buf == text[..n] + old'[n..]
  {
    assert buf == buf[..n] + buf[n..] && buf[n..] == old'[n..];
  }
}
