/** The tag-list scanner for a DKIM-Signature value. */
module TagList {
  import opened CString
  import opened Wrappers

  const VALUE_MAX_LEN: nat := 1024

  datatype Tag = V | A | C | D | S | BH | B | H

  function Pattern(t: Tag): string {
    match t
    case V => "v="
    case A => "a="
    case C => "c="
    case D => "d="
    case S => "s="
    case BH => "bh="
    case B => "b="
    case H => "h="
  }

  /** `s` has `c` and an equals sign at index `i`. */
  predicate NameAt(s: string, i: nat, c: char) {
    i + 1 < |s| && s[i] == c && s[i + 1] == '='
  }

  /** The known tag whose name and equals sign stand at index `i`. */
  function TagAt(s: string, i: nat): (r: Option<Tag>)
    ensures r.Some? ==> i + |Pattern(r.value)| <= |s|
  {
    if NameAt(s, i, 'v') then Some(V)
    else if NameAt(s, i, 'a') then Some(A)
    else if NameAt(s, i, 'c') then Some(C)
    else if NameAt(s, i, 'd') then Some(D)
    else if NameAt(s, i, 's') then Some(S)
    else if i < |s| && s[i] == 'b' && NameAt(s, i + 1, 'h') then Some(BH)
    else if NameAt(s, i, 'b') then Some(B)
    else if NameAt(s, i, 'h') then Some(H)
    else None
  }

  /** Between tags, or inside the value of one. */
  datatype Mode = Outside | Inside(tag: Tag, val: string)

  type Values = map<Tag, string>

  /** The scanner from index `i` on: what it has recorded once it reaches the end. */
  function Scan(s: string, i: nat, mode: Mode, vals: Values): Values
    requires i <= |s|
    decreases |s| - i
  {
    if i == |s| then (if mode.Inside? then vals[mode.tag := mode.val] else vals)
    else match mode
      case Inside(tag, val) =>
        if s[i] == ';' then Scan(s, i + 1, Outside, vals[tag := val])
        else if IsWsp(s[i]) || |val| >= VALUE_MAX_LEN - 1 then Scan(s, i + 1, mode, vals)
        else Scan(s, i + 1, Inside(tag, val + [s[i]]), vals)
      case Outside =>
        match TagAt(s, i)
        case None => Scan(s, i + 1, Outside, vals)
        case Some(tag) => Scan(s, i + |Pattern(tag)|, Inside(tag, []), vals)
  }

  function Tags(sig: string): Values {
    Scan(sig, 0, Outside, map[])
  }

  // ---------- The code ----------

  /** `dkim_header`: one fixed buffer per known tag. */
  class DkimHeader {
    const v: array<char>
    const a: array<char>
    const c: array<char>
    const d: array<char>
    const s: array<char>
    const bh: array<char>
    const b: array<char>
    const h: array<char>

    constructor ()
      ensures Valid() && forall t :: fresh(Field(t))
    {
      v, a, c, d := new char[VALUE_MAX_LEN], new char[VALUE_MAX_LEN], new char[VALUE_MAX_LEN], new char[VALUE_MAX_LEN];
      s, bh, b, h := new char[VALUE_MAX_LEN], new char[VALUE_MAX_LEN], new char[VALUE_MAX_LEN], new char[VALUE_MAX_LEN];
    }

    function Field(t: Tag): array<char> {
      match t
      case V => v
      case A => a
      case C => c
      case D => d
      case S => s
      case BH => bh
      case B => b
      case H => h
    }

    /** The buffers have the declared size and do not overlap. */
    ghost predicate Valid() {
      && (forall t :: Field(t).Length == VALUE_MAX_LEN)
      && (forall t, u :: t != u ==> Field(t) != Field(u))
    }

    /** The buffer of every recorded tag, other than the one being filled, holds its value. */
    ghost predicate Records(vals: Values, mode: Mode)
      requires Valid()
      reads set t: Tag | true :: Field(t)
    {
      && (forall t :: t in vals && !(mode.Inside? && mode.tag == t) ==> IsString(Field(t), vals[t]))
      && (mode.Inside? ==> |mode.val| < VALUE_MAX_LEN && NUL !in mode.val && Holds(Field(mode.tag), mode.val))
    }

    /** The buffers by name. */
    lemma BuffersByName(vals: Values)
      requires Valid() && Records(vals, Outside)
      ensures forall t :: Field(t).Length == 1024
      ensures && (V in vals ==> IsString(v, vals[V]))
              && (A in vals ==> IsString(a, vals[A]))
              && (C in vals ==> IsString(c, vals[C]))
              && (D in vals ==> IsString(d, vals[D]))
              && (S in vals ==> IsString(s, vals[S]))
              && (BH in vals ==> IsString(bh, vals[BH]))
              && (B in vals ==> IsString(b, vals[B]))
              && (H in vals ==> IsString(h, vals[H]))
    {
    }
  }

  ghost predicate IsString(a: array<char>, text: string)
    reads a
  {
    |text| < a.Length && Holds(a, text) && a[|text|] == NUL && NUL !in text
  }

  /** `strncmp (sig+i, "c=", 2) == 0`. */
  predicate Matches(sig: array<char>, i: nat, sigLen: nat, c: char)
    requires sigLen <= sig.Length
    reads sig
  {
    i + 1 < sigLen && sig[i] == c && sig[i + 1] == '='
  }

  /** How the scanner's variables stand for its mode. */
  ghost predicate Tracks(dh: DkimHeader, inVal: bool, param: array?<char>, valLen: nat, mode: Mode) {
    && (inVal <==> mode.Inside?)
    && (if inVal then param == dh.Field(mode.tag) && valLen == |mode.val| else param == null && valLen == 0)
  }

  lemma NamesAt(s: string, i: nat)
    ensures At(s, i, "v=") <==> NameAt(s, i, 'v')
    ensures At(s, i, "a=") <==> NameAt(s, i, 'a')
    ensures At(s, i, "c=") <==> NameAt(s, i, 'c')
    ensures At(s, i, "d=") <==> NameAt(s, i, 'd')
    ensures At(s, i, "s=") <==> NameAt(s, i, 's')
    ensures At(s, i, "b=") <==> NameAt(s, i, 'b')
    ensures At(s, i, "h=") <==> NameAt(s, i, 'h')
    ensures At(s, i, "bh=") <==> i < |s| && s[i] == 'b' && NameAt(s, i + 1, 'h')
  {
    TwoAt(s, i, 'v', '=');
    TwoAt(s, i, 'a', '=');
    TwoAt(s, i, 'c', '=');
    TwoAt(s, i, 'd', '=');
    TwoAt(s, i, 's', '=');
    TwoAt(s, i, 'b', '=');
    TwoAt(s, i, 'h', '=');
    TwoAt(s, i + 1, 'h', '=');
    AtSplit(s, i, "b", "h=");
    assert "b" + "h=" == "bh=";
    assert At(s, i, "b") <==> i < |s| && s[i] == 'b' by {
      assert i < |s| ==> s[i + 0] == s[i];
      assert "b"[0] == 'b';
    }
  }

  lemma TwoAt(s: string, i: nat, c: char, d: char)
    ensures At(s, i, [c, d]) <==> i + 1 < |s| && s[i] == c && s[i + 1] == d
  {
    assert i + 1 < |s| ==> s[i + 0] == s[i];
    assert [c, d][0] == c && [c, d][1] == d;
  }

  /** The cascade of comparisons at a position between tags: the buffer of the tag found
      there, if any, and how far its pattern makes the index skip. */
  method FindTag(dh: DkimHeader, sig: array<char>, i: nat, sigLen: nat, ghost text: string)
      returns (param: array?<char>, skip: nat)
    requires i < sigLen == |text| && Holds(sig, text)
    ensures var at := TagAt(text, i);
            if at.Some? then param == dh.Field(at.value) && skip + 1 == |Pattern(at.value)|
            else param == null && skip == 0
    ensures At(text, i, "v=") ==> param == dh.v && skip == 1
    ensures At(text, i, "a=") ==> param == dh.a && skip == 1
    ensures At(text, i, "c=") ==> param == dh.c && skip == 1
    ensures At(text, i, "d=") ==> param == dh.d && skip == 1
    ensures At(text, i, "s=") ==> param == dh.s && skip == 1
    ensures At(text, i, "bh=") ==> param == dh.bh && skip == 2
    ensures At(text, i, "b=") ==> param == dh.b && skip == 1
    ensures At(text, i, "h=") ==> param == dh.h && skip == 1
    ensures param == null <==>
              !At(text, i, "v=") && !At(text, i, "a=") && !At(text, i, "c=") && !At(text, i, "d=") &&
              !At(text, i, "s=") && !At(text, i, "bh=") && !At(text, i, "b=") && !At(text, i, "h=")
  {
    NamesAt(text, i);
    if Matches(sig, i, sigLen, 'v') {
      param, skip := dh.v, 1;
    } else if Matches(sig, i, sigLen, 'a') {
      param, skip := dh.a, 1;
    } else if Matches(sig, i, sigLen, 'c') {
      param, skip := dh.c, 1;
    } else if Matches(sig, i, sigLen, 'd') {
      param, skip := dh.d, 1;
    } else if Matches(sig, i, sigLen, 's') {
      param, skip := dh.s, 1;
    } else if sig[i] == 'b' && Matches(sig, i + 1, sigLen, 'h') {
      param, skip := dh.bh, 2;
    } else if Matches(sig, i, sigLen, 'b') {
      param, skip := dh.b, 1;
    } else if Matches(sig, i, sigLen, 'h') {
      param, skip := dh.h, 1;
    } else {
      param, skip := null, 0;
    }
  }

  /** Put character `c` of a value, or the NUL that ends it, at `param[n]`. */
  method Store(dh: DkimHeader, param: array<char>, n: nat, c: char, ghost mode: Mode, ghost vals: Values)
    requires dh.Valid() && dh.Records(vals, mode)
    requires mode.Inside? && param == dh.Field(mode.tag) && n == |mode.val| && param.Length == VALUE_MAX_LEN
    modifies param
    ensures c == NUL ==> dh.Records(vals[mode.tag := mode.val], Outside)
    ensures c != NUL && n + 1 < VALUE_MAX_LEN ==> dh.Records(vals, Inside(mode.tag, mode.val + [c]))
  {
    param[n] := c;
  }

  /** One character of a value: it ends it, is WSP and ignored, or is stored while there is room. */
  method InValue(dh: DkimHeader, ch: char, param0: array?<char>, valLen0: nat, ghost mode0: Mode, ghost vals0: Values)
      returns (inVal: bool, param: array?<char>, valLen: nat, ghost mode: Mode, ghost vals: Values)
    requires dh.Valid() && dh.Records(vals0, mode0) && Tracks(dh, true, param0, valLen0, mode0) && ch != NUL
    modifies if param0 == null then {} else {param0}
    ensures dh.Records(vals, mode) && Tracks(dh, inVal, param, valLen, mode)
    ensures (mode, vals) ==
            if ch == ';' then (Outside, vals0[mode0.tag := mode0.val])
            else if IsWsp(ch) || |mode0.val| >= VALUE_MAX_LEN - 1 then (mode0, vals0)
            else (Inside(mode0.tag, mode0.val + [ch]), vals0)
  {
    inVal, param, valLen, mode, vals := true, param0, valLen0, mode0, vals0;
    if ch == ';' {
      if param != null {
        Store(dh, param, valLen, NUL, mode, vals);
        param := null;
      }
      inVal := false;
      valLen := 0;
      vals, mode := vals[mode.tag := mode.val], Outside;
    } else if ch == '\t' || ch == ' ' {
    } else {
      if param != null && valLen < VALUE_MAX_LEN - 1 {
        Store(dh, param, valLen, ch, mode, vals);
        valLen := valLen + 1;
        mode := Inside(mode.tag, mode.val + [ch]);
      }
    }
  }

  // One turn of the scanner.

  lemma {:induction false} ScanEnd(s: string, vals: Values)
    ensures Scan(s, |s|, Outside, vals) == vals
  {
  }

  lemma {:induction false} ScanInside(s: string, i: nat, tag: Tag, val: string, vals: Values)
    requires i <= |s|
    ensures Scan(s, i, Inside(tag, val), vals) ==
            if i == |s| then vals[tag := val]
            else if s[i] == ';' then Scan(s, i + 1, Outside, vals[tag := val])
            else if IsWsp(s[i]) || |val| >= VALUE_MAX_LEN - 1 then Scan(s, i + 1, Inside(tag, val), vals)
            else Scan(s, i + 1, Inside(tag, val + [s[i]]), vals)
  {
  }

  lemma ScanOutside(s: string, i: nat, vals: Values)
    requires i < |s|
    ensures Scan(s, i, Outside, vals) ==
            match TagAt(s, i)
            case None => Scan(s, i + 1, Outside, vals)
            case Some(tag) => Scan(s, i + |Pattern(tag)|, Inside(tag, []), vals)
  {
  }

  /** `dkim_parse_header`. */
  method ParseHeader(sig: array<char>, sigLen: nat, ghost text: string) returns (dh: DkimHeader)
    requires sigLen == |text| && Holds(sig, text) && NUL !in text
    ensures fresh(dh) && dh.Valid()
    ensures forall t :: dh.Field(t).Length == 1024
    ensures var vals := Tags(text);
            && (V in vals ==> IsString(dh.v, vals[V]))
            && (A in vals ==> IsString(dh.a, vals[A]))
            && (C in vals ==> IsString(dh.c, vals[C]))
            && (D in vals ==> IsString(dh.d, vals[D]))
            && (S in vals ==> IsString(dh.s, vals[S]))
            && (BH in vals ==> IsString(dh.bh, vals[BH]))
            && (B in vals ==> IsString(dh.b, vals[B]))
            && (H in vals ==> IsString(dh.h, vals[H]))
  {
    hide Scan, TagAt, At;
    dh := new DkimHeader();
    var inVal, valLen := false, 0;
    var param: array?<char> := null;
    ghost var vals: Values, mode := map[], Outside;
    var i := 0;
    while i < sigLen
      invariant 0 <= i <= sigLen && Holds(sig, text)
      invariant dh.Records(vals, mode)
      invariant valLen >= 0 && Tracks(dh, inVal, param, valLen, mode)
      invariant Scan(text, i, mode, vals) == Tags(text)
    {
      if inVal {
        ScanInside(text, i, mode.tag, mode.val, vals);
        inVal, param, valLen, mode, vals := InValue(dh, sig[i], param, valLen, mode, vals);
      } else {
        ghost var at := TagAt(text, i);
        ScanOutside(text, i, vals);
        var skip;
        param, skip := FindTag(dh, sig, i, sigLen, text);
        inVal := param != null;
        i := i + skip;
        mode := if at.Some? then Inside(at.value, []) else Outside;
      }
      i := i + 1;
    }
    if param != null {
      ScanInside(text, i, mode.tag, mode.val, vals);
      Store(dh, param, valLen, NUL, mode, vals);
      vals, mode := vals[mode.tag := mode.val], Outside;
    } else {
      ScanEnd(text, vals);
    }
    dh.BuffersByName(vals);
  }

  // ---------- Reading back a printed tag list ----------

  /** A tag as it stands in a list: text before its name (folding, tags this scanner does not
      know), the name, and the text of its value up to the semicolon. */
  datatype Entry = Entry(lead: string, tag: Tag, raw: string)

  function PrintEntry(e: Entry): string {
    e.lead + Pattern(e.tag) + e.raw
  }

  function Print(entries: seq<Entry>): string {
    if entries == [] then [] else PrintEntry(entries[0]) + ";" + Print(entries[1..])
  }

  /** No known tag starts inside `lead`, whatever part of `next` it would run into. */
  predicate Quiet(lead: string, next: string) {
    forall i :: 0 <= i < |lead| ==> TagAt(lead + next, i).None?
  }

  predicate Printable(e: Entry) {
    Quiet(e.lead, Pattern(e.tag)) && ';' !in e.raw
  }

  /** Text that contains no known "x=" is quiet, but "b" directly before "h=" reads as "bh=". */
  lemma UnknownTextIsQuiet(lead: string, tag: Tag)
    requires forall i :: 0 <= i < |lead| ==> TagAt(lead, i).None?
    requires tag == H ==> lead == [] || lead[|lead| - 1] != 'b'
    ensures Quiet(lead, Pattern(tag))
  {
    forall i | 0 <= i < |lead|
      ensures TagAt(lead + Pattern(tag), i).None?
    {
      var s := lead + Pattern(tag);
      assert TagAt(lead, i).None?;
      assert i + 1 == |lead| ==> s[i + 1] == Pattern(tag)[0] && s[i + 2] == Pattern(tag)[1];
      assert i + 2 == |lead| ==> s[i + 2] == Pattern(tag)[0];
    }
  }

  function StripWsp(s: string, i: nat): string
    requires i <= |s|
    decreases |s| - i
  {
    if i == |s| then [] else (if IsWsp(s[i]) then [] else [s[i]]) + StripWsp(s, i + 1)
  }

  /** What a buffer of 1024 cells can hold of a value. */
  function Clip(s: string): (r: string)
    ensures r == if |s| <= 1023 then s else s[..1023]
  {
    if |s| < VALUE_MAX_LEN then s else s[..VALUE_MAX_LEN - 1]
  }

  function Recorded(e: Entry): string {
    Clip(StripWsp(e.raw, 0))
  }

  /** The values in the order they are read: a repeated tag is overwritten. */
  function Record(vals: Values, entries: seq<Entry>): Values
    decreases |entries|
  {
    if entries == [] then vals
    else Record(vals[entries[0].tag := Recorded(entries[0])], entries[1..])
  }

  lemma {:induction false} ScanLead(s: string, i: nat, lead: string, k: nat, tag: Tag, vals: Values)
    requires Quiet(lead, Pattern(tag)) && k <= |lead|
    requires At(s, i, lead + Pattern(tag))
    ensures Scan(s, i + k, Outside, vals) == Scan(s, i + |lead| + |Pattern(tag)|, Inside(tag, []), vals)
    decreases |lead| - k
  {
    var part := lead + Pattern(tag);
    var p := i + k;
    assert s[p] == part[k] && s[p + 1] == part[k + 1];
    assert k + 2 < |part| ==> s[p + 2] == part[k + 2];
    if k < |lead| {
      assert TagAt(part, k).None?;
      assert TagAt(s, p).None?;
      ScanLead(s, i, lead, k + 1, tag, vals);
    } else {
      assert TagAt(s, p) == Some(tag);
    }
  }

  lemma {:induction false} ScanJunk(s: string, i: nat, junk: string, k: nat, vals: Values)
    requires Quiet(junk, []) && k <= |junk|
    requires At(s, i, junk) && i + |junk| == |s|
    ensures Scan(s, i + k, Outside, vals) == vals
    decreases |junk| - k
  {
    if k < |junk| {
      assert junk + [] == junk;
      assert TagAt(junk, k).None?;
      assert s[i + k] == junk[k] && (k + 1 < |junk| ==> s[i + k + 1] == junk[k + 1]);
      assert k + 2 < |junk| ==> s[i + k + 2] == junk[k + 2];
      assert TagAt(s, i + k).None?;
      ScanJunk(s, i, junk, k + 1, vals);
    }
  }

  lemma ClipFull(val: string, more: string)
    requires |val| == VALUE_MAX_LEN - 1
    ensures Clip(val + more) == val
  {
    assert (val + more)[..|val|] == val;
    assert |more| == 0 ==> val + more == val;
  }

  lemma Clipped(val: string)
    requires |val| < VALUE_MAX_LEN
    ensures Clip(val) == val
  {
  }

  lemma {:induction false} ScanValue(s: string, i: nat, raw: string, k: nat, tag: Tag, val: string, vals: Values)
    requires At(s, i, raw) && k <= |raw| && ';' !in raw && |val| < VALUE_MAX_LEN
    requires i + |raw| < |s| ==> s[i + |raw|] == ';'
    ensures Scan(s, i + k, Inside(tag, val), vals) ==
            Scan(s, if i + |raw| < |s| then i + |raw| + 1 else |s|, Outside, vals[tag := Clip(val + StripWsp(raw, k))])
    decreases |raw| - k
  {
    hide Scan, Clip;
    ScanInside(s, i + k, tag, val, vals);
    if k == |raw| {
      ScanEnd(s, vals[tag := val]);
      Clipped(val);
      assert val + [] == val;
    } else {
      var c, more := raw[k], StripWsp(raw, k + 1);
      assert s[i + k] == c && c in raw;
      if IsWsp(c) {
        assert StripWsp(raw, k) == more;
        ScanValue(s, i, raw, k + 1, tag, val, vals);
      } else if |val| < VALUE_MAX_LEN - 1 {
        assert val + StripWsp(raw, k) == val + [c] + more;
        ScanValue(s, i, raw, k + 1, tag, val + [c], vals);
      } else {
        ClipFull(val, StripWsp(raw, k));
        ClipFull(val, more);
        ScanValue(s, i, raw, k + 1, tag, val, vals);
      }
    }
  }

  lemma ScanEntry(s: string, i: nat, e: Entry, vals: Values)
    requires Printable(e) && At(s, i, PrintEntry(e))
    requires var end := i + |PrintEntry(e)|; end < |s| ==> s[end] == ';'
    ensures var end := i + |PrintEntry(e)|;
            Scan(s, i, Outside, vals) ==
            Scan(s, if end < |s| then end + 1 else |s|, Outside, vals[e.tag := Recorded(e)])
  {
    hide Scan, Quiet, StripWsp, Clip, Pattern;
    var at := i + |e.lead| + |Pattern(e.tag)|;
    AtSplit(s, i, e.lead + Pattern(e.tag), e.raw);
    ScanLead(s, i, e.lead, 0, e.tag, vals);
    ScanValue(s, at, e.raw, 0, e.tag, [], vals);
    assert [] + StripWsp(e.raw, 0) == StripWsp(e.raw, 0);
  }

  lemma FirstEntryAt(s: string, i: nat, text: string, more: string)
    requires At(s, i, text + ";" + more)
    ensures At(s, i, text) && At(s, i + |text| + 1, more)
    ensures i + |text| < |s| && s[i + |text|] == ';'
  {
    AtSplit(s, i, text + ";", more);
    AtSplit(s, i, text, ";");
    assert s[i + |text| + 0] == ";"[0];
  }

  lemma {:induction false} ScanEntries(s: string, i: nat, entries: seq<Entry>, vals: Values)
    requires forall e :: e in entries ==> Printable(e)
    requires At(s, i, Print(entries))
    ensures Scan(s, i, Outside, vals) == Scan(s, i + |Print(entries)|, Outside, Record(vals, entries))
    decreases |entries|
  {
    hide Scan, Printable, PrintEntry, Recorded;
    if entries != [] {
      var e := entries[0];
      FirstEntryAt(s, i, PrintEntry(e), Print(entries[1..]));
      ScanEntry(s, i, e, vals);
      ScanEntries(s, i + |PrintEntry(e)| + 1, entries[1..], vals[e.tag := Recorded(e)]);
    }
  }

  lemma StartsWith(a: string, b: string)
    ensures At(a + b, 0, a) && At(a + b, |a|, b)
  {
  }

  /** Every value of a printed list is recovered, without its WSP and cut to 1023 characters;
      the text between tags disturbs nothing. */
  lemma {:induction false} TagsOfList(entries: seq<Entry>, tail: string)
    requires forall e :: e in entries ==> Printable(e)
    requires Quiet(tail, [])
    ensures Tags(Print(entries) + tail) == Record(map[], entries)
  {
    hide Scan, Print, Printable, Quiet, Record, At;
    var s := Print(entries) + tail;
    StartsWith(Print(entries), tail);
    ScanEntries(s, 0, entries, map[]);
    ScanJunk(s, |Print(entries)|, tail, 0, Record(map[], entries));
  }

  /** The same when the list ends without a semicolon. */
  lemma {:induction false} TagsOfOpenList(entries: seq<Entry>, last: Entry)
    requires forall e :: e in entries ==> Printable(e)
    requires Printable(last)
    ensures Tags(Print(entries) + PrintEntry(last)) == Record(map[], entries + [last])
  {
    hide Scan, Print, PrintEntry, Printable, Record, At;
    var s := Print(entries) + PrintEntry(last);
    StartsWith(Print(entries), PrintEntry(last));
    ScanEnd(s, Record(map[], entries + [last]));
    ScanEntries(s, 0, entries, map[]);
    ScanEntry(s, |Print(entries)|, last, Record(map[], entries));
    RecordSnoc(map[], entries, last);
  }

  lemma {:induction false} RecordSnoc(vals: Values, entries: seq<Entry>, e: Entry)
    ensures Record(vals, entries + [e]) == Record(vals, entries)[e.tag := Recorded(e)]
    decreases |entries|
  {
    if entries == [] {
      assert [e][1..] == [];
    } else {
      assert (entries + [e])[1..] == entries[1..] + [e];
      RecordSnoc(vals[entries[0].tag := Recorded(entries[0])], entries[1..], e);
    }
  }

  // ---------- The order of the tags does not matter ----------

  predicate DistinctTags(entries: seq<Entry>) {
    forall i, j :: 0 <= i < j < |entries| ==> entries[i].tag != entries[j].tag
  }

  function Pairs(entries: seq<Entry>): set<(Tag, string)> {
    set i | 0 <= i < |entries| :: (entries[i].tag, Recorded(entries[i]))
  }

  lemma {:induction false} RecordDistinct(entries: seq<Entry>)
    requires DistinctTags(entries)
    ensures forall t, v :: (t in Record(map[], entries) && Record(map[], entries)[t] == v) <==> (t, v) in Pairs(entries)
    decreases |entries|
  {
    if entries != [] {
      var init, e := entries[..|entries| - 1], entries[|entries| - 1];
      assert entries == init + [e];
      RecordSnoc(map[], init, e);
      RecordDistinct(init);
      assert Pairs(entries) == Pairs(init) + {(e.tag, Recorded(e))};
      assert forall v :: (e.tag, v) !in Pairs(init);
    }
  }

  /** The text of a list: with a semicolon after every entry and a tail, or without the last one. */
  function ListText(entries: seq<Entry>, open: bool, tail: string): string
    requires open ==> entries != []
  {
    if open then Print(entries[..|entries| - 1]) + PrintEntry(entries[|entries| - 1]) else Print(entries) + tail
  }

  lemma {:induction false} TagsOfText(entries: seq<Entry>, open: bool, tail: string)
    requires (forall e :: e in entries ==> Printable(e)) && Quiet(tail, []) && (open ==> entries != [])
    ensures Tags(ListText(entries, open, tail)) == Record(map[], entries)
  {
    hide Tags, Record, Printable;
    if open {
      var init, last := entries[..|entries| - 1], entries[|entries| - 1];
      assert entries == init + [last];
      TagsOfOpenList(init, last);
    } else {
      TagsOfList(entries, tail);
    }
  }

  /** Two lists with the same distinct tags and values, in whatever order, with whatever text between
      them, and with or without a last semicolon, are read alike. */
  lemma OrderDoesNotMatter(entries: seq<Entry>, open: bool, tail: string,
      entries': seq<Entry>, open': bool, tail': string)
    requires forall e :: e in entries + entries' ==> Printable(e)
    requires Quiet(tail, []) && Quiet(tail', []) && (open ==> entries != []) && (open' ==> entries' != [])
    requires DistinctTags(entries) && DistinctTags(entries')
    requires Pairs(entries) == Pairs(entries')
    ensures Tags(ListText(entries, open, tail)) == Tags(ListText(entries', open', tail'))
  {
    hide Tags, Record, Printable, ListText;
    assert forall e :: e in entries ==> e in entries + entries';
    assert forall e :: e in entries' ==> e in entries + entries';
    TagsOfText(entries, open, tail);
    TagsOfText(entries', open', tail');
    SamePairsSameRecord(entries, entries');
  }

  lemma {:induction false} SamePairsSameRecord(entries: seq<Entry>, entries': seq<Entry>)
    requires DistinctTags(entries) && DistinctTags(entries')
    requires Pairs(entries) == Pairs(entries')
    ensures Record(map[], entries) == Record(map[], entries')
  {
    hide Record, Pairs, DistinctTags;
    RecordDistinct(entries);
    RecordDistinct(entries');
    var r, r' := Record(map[], entries), Record(map[], entries');
    forall t
      ensures t in r ==> t in r' && r'[t] == r[t]
      ensures t in r' ==> t in r
    {
      assert t in r ==> (t, r[t]) in Pairs(entries');
      assert t in r' ==> (t, r'[t]) in Pairs(entries);
    }
  }
}
