/** What the printed JSON means to a reader of RFC 8259, and when it means the tree that was printed. */
module JsonRoundTrip {
  import opened CString
  import opened JsonPrinter
  import opened Wrappers
  import R = JsonReader

  // ---------- What a tree means ----------

  predicate HasElement(nodes: seq<Xml>) {
    nodes != [] && (nodes[0].Element? || HasElement(nodes[1..]))
  }

  /** The character data among siblings, beside the elements. */
  function Beside(nodes: seq<Xml>): string {
    if nodes == [] then [] else (if nodes[0].CharData? then nodes[0].content else []) + Beside(nodes[1..])
  }

  predicate Blank(t: string) {
    forall k :: 0 <= k < |t| ==> R.IsSpace(t[k])
  }

  /** Siblings are an object: a member for each element, in order, and one without a name for the character
      data beside them, unless that is blank. Comments mean nothing. */
  function Object(nodes: seq<Xml>): R.Json
    decreases nodes, 1
  {
    var data := Beside(nodes);
    R.JObject(Members(nodes) + if Blank(data) then [] else [R.Member("", R.JString(data))])
  }

  /** An element without elements below it is its character data; any other is the object of what is below
      it. */
  function Value(e: Xml): R.Json
    requires e.Element?
    decreases e, 1
  {
    if HasElement(e.children) then Object(e.children) else R.JString(DataIn(e.children))
  }

  function Members(nodes: seq<Xml>): seq<R.Member>
    decreases nodes, 0
  {
    if nodes == [] then []
    else if nodes[0].Element? then [R.Member(nodes[0].name, Value(nodes[0]))] + Members(nodes[1..])
    else Members(nodes[1..])
  }

  function Records(nodes: seq<Xml>): seq<R.Json> {
    if nodes == [] then []
    else if IsRecord(nodes[0]) then [Object(nodes[0].children)] + Records(nodes[1..])
    else Records(nodes[1..])
  }

  function Sections(nodes: seq<Xml>): seq<R.Member> {
    if nodes == [] then []
    else if IsMetadata(nodes[0]) then [R.Member("metadata", Object(nodes[0].children))] + Sections(nodes[1..])
    else if IsPolicy(nodes[0]) then [R.Member("policy", Object(nodes[0].children))] + Sections(nodes[1..])
    else Sections(nodes[1..])
  }

  // ---------- Which trees are ----------

  /** A character that may stand in a text: `json_escape` leaves quotes and most control characters as
      they are. */
  predicate CleanChar(c: char) {
    c != '"' && (c >= ' ' || c == '\t' || c == '\n' || c == '\r')
  }

  predicate CleanText(t: string) {
    t == [] || (CleanChar(t[0]) && CleanText(t[1..]))
  }

  /** A sole child is printed as its content: it has to be clean text, or a comment without text, but
      no element. Of two or more children only elements are printed, so there has to be one, and the
      character data beside them has to be blank. */
  predicate Faithful(e: Xml)
    requires e.Element?
    decreases e, 1
  {
    e.children == [] ||
    if |e.children| > 1 then HasElement(e.children) && FaithfulObject(e.children)
    else match e.children[0]
         case Element(_, _) => false
         case CharData(content) => CleanText(content)
         case Other(content) => content == ""
  }

  predicate FaithfulObject(nodes: seq<Xml>)
    decreases nodes, 1
  {
    AllFaithful(nodes) && Blank(Beside(nodes))
  }

  predicate AllFaithful(nodes: seq<Xml>)
    decreases nodes, 0
  {
    nodes == [] || ((nodes[0].Element? ==> Faithful(nodes[0])) && AllFaithful(nodes[1..]))
  }

  /** A name that is read as it is printed; names of XML elements are like that. */
  predicate PlainName(t: string) {
    forall k :: 0 <= k < |t| ==> PlainChar(t[k])
  }

  predicate PlainChar(c: char) {
    c >= ' ' && c != '"' && c != '\\'
  }

  predicate PlainNames(nodes: seq<Xml>) {
    nodes == [] ||
    ((nodes[0].Element? ==> PlainName(nodes[0].name) && PlainNames(nodes[0].children)) && PlainNames(nodes[1..]))
  }

  /** All names are plain, and no comment that is a sole child starts with a quote, which a reader would
      take for the end of its text. */
  predicate Plain(nodes: seq<Xml>) {
    nodes == [] ||
    ((nodes[0].Element? ==> PlainElement(nodes[0].name, nodes[0].children) && Plain(nodes[0].children)) &&
     Plain(nodes[1..]))
  }

  predicate PlainComment(n: Xml) {
    n.Other? && n.content != "" ==> n.content[0] != '"'
  }

  predicate PlainElement(name: string, children: seq<Xml>) {
    PlainName(name) && (|children| == 1 ==> PlainComment(children[0]))
  }

  // ---------- Strings ----------

  lemma AtOne(s: string, i: nat, c: char)
    ensures At(s, i, [c]) <==> i < |s| && s[i] == c
  {
    assert [c][0] == c;
    assert i < |s| ==> s[i + 0] == s[i];
  }

  lemma AtHead(s: string, i: nat, c: char, rest: string)
    ensures At(s, i, [c] + rest) <==> i < |s| && s[i] == c && At(s, i + 1, rest)
  {
    AtSplit(s, i, [c], rest);
    AtOne(s, i, c);
  }

  lemma CharIsReadIff(c: char, s: string, i: nat)
    requires At(s, i, EscapeChar(c))
    ensures CleanChar(c) ==> R.Chars(s, i) == R.Behind(c, R.Chars(s, i + |EscapeChar(c)|))
    ensures !CleanChar(c) ==> R.Chars(s, i).Fail? || R.Chars(s, i).value == ""
  {
    assert s[i + 0] == EscapeChar(c)[0];
    if |EscapeChar(c)| == 2 {
      assert s[i + 1] == EscapeChar(c)[1];
    }
  }

  /** A text is read back exactly if it is clean: a raw quote ends it early, a raw control character
      makes the reader fail. */
  lemma {:induction false} TextIsReadIff(t: string, s: string, i: nat)
    requires At(s, i, Escape(t)) && At(s, i + |Escape(t)|, "\"")
    ensures CleanText(t) ==> R.Chars(s, i) == R.Got(t, i + |Escape(t)| + 1)
    ensures !CleanText(t) ==> R.Chars(s, i).Fail? || R.Chars(s, i).value != t
    decreases t
  {
    hide R.Chars, EscapeChar, At, CleanChar;
    if t == [] {
      EndIsRead(s, i);
    } else {
      var c, rest := t[0], t[1..];
      AtSplit(s, i, EscapeChar(c), Escape(rest));
      CharIsReadIff(c, s, i);
      assert t == [c] + rest;
      if CleanChar(c) {
        TextIsReadIff(rest, s, i + |EscapeChar(c)|);
      }
    }
  }

  lemma {:induction false} EndIsRead(s: string, i: nat)
    requires At(s, i, "\"")
    ensures i < |s| && R.Chars(s, i) == R.Got("", i + 1)
  {
    AtOne(s, i, '"');
  }

  lemma {:induction false} NameIsRead(t: string, s: string, i: nat)
    requires PlainName(t) && At(s, i, t) && At(s, i + |t|, "\"")
    ensures R.Chars(s, i) == R.Got(t, i + |t| + 1)
    decreases t
  {
    if t == [] {
      AtOne(s, i, '"');
    } else {
      assert t == [t[0]] + t[1..];
      AtHead(s, i, t[0], t[1..]);
      NameIsRead(t[1..], s, i + 1);
    }
  }

  // ---------- Objects ----------

  /** Reading at `i` gives `v` and stops at `next`; or, unless `clean`, gives something else or nothing. */
  predicate Gives<T(==)>(r: R.Read<T>, v: T, next: nat, clean: bool) {
    if clean then r == R.Got(v, next) else r.Fail? || r.value != v
  }

  /** The same for a list of members; what is read instead does not even start with them. */
  predicate GivesList(r: R.Read<seq<R.Member>>, ms: seq<R.Member>, next: nat, clean: bool) {
    if clean then r == R.Got(ms, next) else r.Fail? || !(ms <= r.value)
  }

  /** A name, its colon and the blank after it. */
  lemma Named(name: string, rest: string, s: string, i: nat)
    requires PlainName(name) && At(s, i, "\"" + name + "\": " + rest)
    ensures i + |name| + 4 <= |s| && s[i] == '"' && s[i + |name| + 2] == ':' && s[i + |name| + 3] == ' '
    ensures R.Chars(s, i + 1) == R.Got(name, i + |name| + 2) && At(s, i + |name| + 4, rest)
  {
    hide R.Chars, PlainName, At;
    var n := i + 1 + |name|;
    var after := [':'] + ([' '] + rest);
    assert "\"" + name + "\": " + rest == ['"'] + (name + (['"'] + after));
    AtHead(s, i, '"', name + (['"'] + after));
    AtSplit(s, i + 1, name, ['"'] + after);
    AtSplit(s, n, ['"'], after);
    AtHead(s, n + 1, ':', [' '] + rest);
    AtHead(s, n + 2, ' ', rest);
    NameIsRead(name, s, i + 1);
    AtFits(s, n + 3, rest);
  }

  lemma {:induction false} NamedValue(name: string, rest: string, s: string, i: nat)
    requires PlainName(name) && At(s, i, "\"" + name + "\": " + rest) && rest != [] && !R.IsSpace(rest[0])
    ensures i + |name| + 4 < |s| && At(s, i + |name| + 4, rest)
    ensures R.ReadMember(s, i) ==
            var r := R.ReadValue(s, i + |name| + 4);
            if r.Got? then R.Got(R.Member(name, r.value), r.next) else R.Fail
  {
    hide R.ReadValue, R.Chars, PlainName, At;
    Named(name, rest, s, i);
    AtFits(s, i + |name| + 4, rest);
    assert R.Skip(s, i + |name| + 3) == i + |name| + 4;
  }

  lemma FixedNamesArePlain()
    ensures PlainName("metadata") && PlainName("policy") && PlainName("records")
  {
  }

  lemma {:induction false} ValueStarts(e: Xml)
    requires e.Element?
    ensures PrintValue(e) != [] && (PrintValue(e)[0] == '"' || PrintValue(e)[0] == '{')
  {
  }

  lemma {:induction false} MemberText(e: Xml)
    requires e.Element?
    ensures PrintMember(e) == "\"" + e.name + "\": " + PrintValue(e)
    ensures |PrintMember(e)| == |e.name| + 4 + |PrintValue(e)|
  {
    hide PrintValue;
  }

  lemma {:induction false} MemberStarts(e: Xml, s: string, i: nat)
    requires e.Element? && At(s, i, PrintMember(e))
    ensures i < |s| && s[i] == '"'
  {
    assert s[i + 0] == PrintMember(e)[0];
  }

  lemma ConsIsInjective<T>(x: T, a: seq<T>, y: T, b: seq<T>)
    ensures [x] + a == [y] + b <==> x == y && a == b
  {
    if [x] + a == [y] + b {
      assert ([x] + a)[0] == ([y] + b)[0];
      assert ([x] + a)[1..] == a && ([y] + b)[1..] == b;
    }
  }

  lemma ConsIsPrefixIff<T>(x: T, a: seq<T>, y: T, b: seq<T>)
    ensures [x] + a <= [y] + b <==> x == y && a <= b
  {
    if [x] + a <= [y] + b {
      assert ([x] + a)[0] == ([y] + b)[0];
      assert ([x] + a)[1..] == a && ([y] + b)[1..] == b;
      assert forall k :: 0 <= k < |a| ==> a[k] == ([x] + a)[k + 1] == ([y] + b)[k + 1] == b[k];
    }
  }

  lemma {:induction false} PlainRest(nodes: seq<Xml>)
    requires nodes != [] && Plain(nodes)
    ensures Plain(nodes[1..])
    ensures nodes[0].Element? ==> PlainElement(nodes[0].name, nodes[0].children) && Plain(nodes[0].children)
  {
  }

  lemma NamedGives(name: string, r: R.Read<R.Json>, v: R.Json, next: nat, clean: bool)
    requires Gives(r, v, next, clean)
    ensures Gives(if r.Got? then R.Got(R.Member(name, r.value), r.next) else R.Fail, R.Member(name, v), next, clean)
  {
  }

  lemma {:induction false} NamedMember(e: Xml, s: string, i: nat)
    requires e.Element? && PlainElement(e.name, e.children) && At(s, i, PrintMember(e))
    ensures var j := i + |e.name| + 4;
            && j < |s| && At(s, j, PrintValue(e)) && i + |PrintMember(e)| == j + |PrintValue(e)|
            && R.ReadMember(s, i) ==
               var r := R.ReadValue(s, j);
               if r.Got? then R.Got(R.Member(e.name, r.value), r.next) else R.Fail
  {
    hide R.ReadValue, R.ReadMember, At, PrintValue, PrintMember, PlainName;
    ValueStarts(e);
    MemberText(e);
    NamedValue(e.name, PrintValue(e), s, i);
  }

  lemma {:induction false} MemberIsReadIff(e: Xml, s: string, i: nat)
    requires e.Element? && PlainElement(e.name, e.children) && Plain(e.children) && At(s, i, PrintMember(e))
    ensures Gives(R.ReadMember(s, i), R.Member(e.name, Value(e)), i + |PrintMember(e)|, Faithful(e))
    decreases e, 1
  {
    hide R.ReadValue, R.ReadMember, R.Chars, At, Gives, Faithful, Value, PrintValue, PrintMember, Plain, PlainElement;
    NamedMember(e, s, i);
    ValueIsReadIff(e, s, i + |e.name| + 4);
    NamedGives(e.name, R.ReadValue(s, i + |e.name| + 4), Value(e), i + |PrintMember(e)|, Faithful(e));
  }

  lemma {:induction false} ReadsByFirst(s: string, i: nat)
    requires i < |s|
    ensures s[i] == '{' ==> var r := R.ReadValue(s, i); r.Fail? || r.value.JObject?
    ensures s[i] == '"' ==>
              R.ReadValue(s, i) ==
              var t := R.Chars(s, i + 1); if t.Got? then R.Got(R.JString(t.value), t.next) else R.Fail
  {
  }

  lemma {:induction false} ValueIsReadIff(e: Xml, s: string, i: nat)
    requires e.Element? && PlainElement(e.name, e.children) && Plain(e.children) && At(s, i, PrintValue(e))
    ensures Gives(R.ReadValue(s, i), Value(e), i + |PrintValue(e)|, Faithful(e))
    decreases e, 0
  {
    hide R.ReadValue, R.Chars, At, FaithfulObject, Object, PrintNodes;
    AtFits(s, i, PrintValue(e));
    ReadsByFirst(s, i);
    if |e.children| > 1 {
      ObjectIsReadIff(e.children, s, i);
    } else {
      TextIsReadHere(e, s, i);
    }
  }

  /** The text printed for an element with at most one child. */
  function SoleText(e: Xml): string
    requires e.Element? && |e.children| <= 1
  {
    if e.children == [] then "" else Content(e.children[0])
  }

  lemma {:induction false} SoleTextIsPrinted(e: Xml)
    requires e.Element? && |e.children| <= 1
    ensures PrintValue(e) == ['"'] + (Escape(SoleText(e)) + "\"") && |PrintValue(e)| == |Escape(SoleText(e))| + 2
  {
  }

  lemma {:induction false} TextIsReadHere(e: Xml, s: string, i: nat)
    requires e.Element? && |e.children| <= 1 && PlainElement(e.name, e.children) && At(s, i, PrintValue(e))
    ensures Gives(R.ReadValue(s, i), Value(e), i + |PrintValue(e)|, Faithful(e))
  {
    assert CleanText("");
    hide R.ReadValue, R.Chars, At, Escape, CleanText, Object, PrintValue;
    var t := SoleText(e);
    SoleTextIsPrinted(e);
    AtHead(s, i, '"', Escape(t) + "\"");
    AtSplit(s, i + 1, Escape(t), "\"");
    ReadsByFirst(s, i);
    TextIsReadIff(t, s, i + 1);
    if |e.children| == 1 {
      SoleChild(e.children, s, i + 1);
    }
  }

  /** What a sole child means, and what its content is read as if it means nothing. */
  lemma {:induction false} SoleChild(nodes: seq<Xml>, s: string, i: nat)
    requires |nodes| == 1 && PlainComment(nodes[0])
    requires At(s, i, Escape(Content(nodes[0]))) && At(s, i + |Escape(Content(nodes[0]))|, "\"")
    ensures HasElement(nodes) <==> nodes[0].Element?
    ensures nodes[0].CharData? ==> DataIn(nodes) == nodes[0].content
    ensures nodes[0].Other? ==> DataIn(nodes) == "" && CleanText("")
    ensures nodes[0].Other? && nodes[0].content != "" ==> R.Chars(s, i).Fail? || R.Chars(s, i).value != ""
  {
    assert nodes[1..] == [];
    if nodes[0].Other? && nodes[0].content != "" {
      var t := nodes[0].content;
      AtSplit(s, i, EscapeChar(t[0]), Escape(t[1..]));
      CharIsReadIff(t[0], s, i);
      assert s[i + 0] == EscapeChar(t[0])[0];
    }
  }

  /** The object printed for siblings is read back as their members exactly if all of them are faithful. */
  lemma {:induction false} ObjectIsReadIff(nodes: seq<Xml>, s: string, i: nat)
    requires Plain(nodes) && At(s, i, "{" + PrintNodes(nodes, true) + "}")
    ensures Gives(R.ReadValue(s, i), Object(nodes), i + |PrintNodes(nodes, true)| + 2, FaithfulObject(nodes))
    decreases nodes, 3
  {
    var p := PrintNodes(nodes, true);
    assert "{" + p + "}" == ['{'] + (p + "}");
    AtHead(s, i, '{', p + "}");
    FirstIsReadIff(nodes, s, i + 1);
    var ms, data := Members(nodes), Beside(nodes);
    var extra := if Blank(data) then [] else [R.Member("", R.JString(data))];
    assert Object(nodes) == R.JObject(ms + extra) && ms <= ms + extra && (extra == [] ==> ms + extra == ms);
  }

  /** What stands between the braces: nothing, or one or more members. */
  function Inside(s: string, i: nat): R.Read<seq<R.Member>>
    requires i <= |s|
  {
    if i < |s| && s[i] == '}' then R.Got([], i + 1) else R.ReadMembers(s, i)
  }

  lemma {:induction false} FirstIsReadIff(nodes: seq<Xml>, s: string, i: nat)
    requires Plain(nodes) && At(s, i, PrintNodes(nodes, true) + "}")
    ensures R.Skip(s, i) == i
    ensures GivesList(Inside(s, i), Members(nodes), i + |PrintNodes(nodes, true)| + 1, AllFaithful(nodes))
    decreases nodes, 1
  {
    if nodes == [] {
      assert PrintNodes(nodes, true) + "}" == ['}'];
      AtOne(s, i, '}');
    } else if nodes[0].Element? {
      ListIsReadIff(nodes, s, i);
    } else {
      FirstIsReadIff(nodes[1..], s, i);
    }
  }

  /** One member at `i`, then the rest of the object. */
  lemma {:induction false} MembersIsReadIff(m: R.Member, n: nat, clean: bool, ms: seq<R.Member>, next: nat, rest: bool,
      s: string, i: nat)
    requires i < n <= |s| && Gives(R.ReadMember(s, i), m, n, clean) && GivesList(R.MoreMembers(s, n), ms, next, rest)
    ensures GivesList(R.ReadMembers(s, i), [m] + ms, next, clean && rest)
  {
    hide R.ReadMember, R.MoreMembers;
    var member := R.ReadMember(s, i);
    if member.Got? {
      var later := R.MoreMembers(s, member.next);
      if later.Got? {
        ConsIsPrefixIff(m, ms, member.value, later.value);
      }
    }
  }

  lemma {:induction false} ListIsReadIff(nodes: seq<Xml>, s: string, i: nat)
    requires nodes != [] && nodes[0].Element?
    requires Plain(nodes) && At(s, i, PrintNodes(nodes, true) + "}")
    ensures i < |s| && s[i] == '"'
    ensures GivesList(R.ReadMembers(s, i), Members(nodes), i + |PrintNodes(nodes, true)| + 1, AllFaithful(nodes))
    decreases nodes, 0
  {
    hide At, PrintMember, PrintNodes, R.ReadMember, R.ReadMembers, R.MoreMembers,
         Gives, GivesList, Faithful, Value, Plain, PlainElement;
    var m, more := PrintMember(nodes[0]), PrintNodes(nodes[1..], false);
    PlainRest(nodes);
    ListAt(nodes, s, i);
    MemberIsReadIff(nodes[0], s, i);
    MoreIsReadIff(nodes[1..], s, i + |m|);
    MembersIsReadIff(R.Member(nodes[0].name, Value(nodes[0])), i + |m|, Faithful(nodes[0]), Members(nodes[1..]),
                     i + |m| + |more| + 1, AllFaithful(nodes[1..]), s, i);
  }

  /** The text of the first member, and the text of the others behind it. */
  lemma {:induction false} ListAt(nodes: seq<Xml>, s: string, i: nat)
    requires nodes != [] && nodes[0].Element? && At(s, i, PrintNodes(nodes, true) + "}")
    ensures var m, more := PrintMember(nodes[0]), PrintNodes(nodes[1..], false);
            && i < i + |m| <= |s| && s[i] == '"' && |PrintNodes(nodes, true)| == |m| + |more|
            && At(s, i, m) && At(s, i + |m|, more + "}")
  {
    hide At, PrintMember;
    var m, more := PrintMember(nodes[0]), PrintNodes(nodes[1..], false);
    assert PrintNodes(nodes, true) + "}" == m + (more + "}");
    AtSplit(s, i, m, more + "}");
    MemberStarts(nodes[0], s, i);
    AtFits(s, i + |m|, more + "}");
    MemberIsLong(nodes[0]);
  }

  lemma {:induction false} MemberIsLong(e: Xml)
    requires e.Element?
    ensures |PrintMember(e)| > 0
  {
    MemberText(e);
  }

  lemma {:induction false} MoreIsReadIff(nodes: seq<Xml>, s: string, i: nat)
    requires Plain(nodes) && At(s, i, PrintNodes(nodes, false) + "}")
    ensures GivesList(R.MoreMembers(s, i), Members(nodes), i + |PrintNodes(nodes, false)| + 1, AllFaithful(nodes))
    decreases nodes, 1
  {
    if nodes == [] {
      assert PrintNodes(nodes, false) + "}" == ['}'];
      AtOne(s, i, '}');
    } else if nodes[0].Element? {
      assert PrintNodes(nodes, false) + "}" == [','] + (PrintNodes(nodes, true) + "}");
      AtHead(s, i, ',', PrintNodes(nodes, true) + "}");
      ListIsReadIff(nodes, s, i + 1);
    } else {
      MoreIsReadIff(nodes[1..], s, i);
    }
  }

  /** The object of `to_json` without a name is one JSON text and denotes what the tree means exactly if
      the tree is faithful. */
  lemma {:induction false} JsonDenotesTreeIff(nodes: seq<Xml>)
    requires Plain(nodes)
    ensures R.Denotes(Json(None, nodes), Object(nodes)) <==> FaithfulObject(nodes)
  {
    WholeAt(Json(None, nodes));
    ObjectIsReadIff(nodes, Json(None, nodes), 0);
  }

  lemma {:induction false} FaithfulIsPlain(nodes: seq<Xml>)
    requires PlainNames(nodes) && AllFaithful(nodes)
    ensures Plain(nodes)
    decreases nodes
  {
    if nodes != [] {
      FaithfulIsPlain(nodes[1..]);
      if nodes[0].Element? {
        if |nodes[0].children| > 1 {
          assert FaithfulObject(nodes[0].children);
          FaithfulIsPlain(nodes[0].children);
        } else if |nodes[0].children| == 1 {
          assert nodes[0].children[1..] == [];
        }
      }
    }
  }

  /** A faithful tree is denoted whatever its comments. */
  lemma {:induction false} FaithfulTreeIsDenoted(nodes: seq<Xml>)
    requires PlainNames(nodes) && FaithfulObject(nodes)
    ensures R.Denotes(Json(None, nodes), Object(nodes))
  {
    FaithfulIsPlain(nodes);
    JsonDenotesTreeIff(nodes);
  }

  // ---------- Trees that are not denoted ----------

  /** An element that is a sole child is printed as its character data alone, so no reader can tell it
      was there. */
  lemma {:induction false} SoleElementIsFlattened(name: string, c: Xml)
    requires c.Element?
    ensures var nested, flat := Element(name, [c]), Element(name, [CharData(Content(c))]);
            Json(None, [nested]) == Json(None, [flat]) && Members([nested]) != Members([flat])
  {
    var nested, flat := Element(name, [c]), Element(name, [CharData(Content(c))]);
    assert [c][1..] == [] && [CharData(Content(c))][1..] == [] && [nested][1..] == [] && [flat][1..] == [];
    assert HasElement([c]) && !HasElement([CharData(Content(c))]);
    assert PrintMember(nested) == PrintMember(flat);
    assert Members([nested])[0].value == Value(nested) && Members([flat])[0].value == Value(flat);
  }

  /** The text of an element is the character data below it, in order; comments and the like have no part
      in it. */
  lemma {:induction false} ContentIsCharacterData(a: seq<Xml>, b: seq<Xml>, name: string, t: string)
    ensures DataIn(a + b) == DataIn(a) + DataIn(b)
    ensures DataIn([CharData(t)]) == t && DataIn([Other(t)]) == "" && DataIn([Element(name, a)]) == DataIn(a)
    ensures Content(CharData(t)) == Content(Other(t)) == t && Content(Element(name, a)) == DataIn(a)
    decreases |a|
  {
    assert [CharData(t)][1..] == [] && [Other(t)][1..] == [] && [Element(name, a)][1..] == [];
    if a == [] {
      assert a + b == b;
    } else {
      assert (a + b)[1..] == a[1..] + b;
      ContentIsCharacterData(a[1..], b, name, t);
    }
  }

  /** Text that a comment or the like splits in two is lost. */
  lemma {:induction false} SplitTextIsLost(name: string, data: seq<Xml>)
    requires |data| > 1 && !HasElement(data)
    ensures PrintValue(Element(name, data)) == "{}" && Value(Element(name, data)) == R.JString(DataIn(data))
  {
    NothingPrinted(data);
  }

  lemma {:induction false} NothingPrinted(nodes: seq<Xml>)
    requires !HasElement(nodes)
    ensures PrintNodes(nodes, true) == []
  {
    if nodes != [] {
      NothingPrinted(nodes[1..]);
    }
  }

  /** One input for each: `<a><b>x</b></a>`, `<a>x<!--c-->y</a>`, `<a>x<b/></a>`, `<a><!--c--></a>` and
      `<a>"</a>`. */
  lemma NotDenoted(e: Xml)
    requires e in {
               Element("a", [Element("b", [CharData("x")])]),
               Element("a", [CharData("x"), Other("c"), CharData("y")]),
               Element("a", [CharData("x"), Element("b", [])]),
               Element("a", [Other("c")]),
               Element("a", [CharData("\"")])}
    ensures !R.Denotes(Json(None, [e]), Object([e]))
  {
    var cs := e.children;
    assert [e][1..] == [] && [CharData("x")][1..] == [];
    if |cs| == 1 {
      assert cs[1..] == [];
    } else if |cs| == 2 {
      assert cs[1..] == [Element("b", [])] && cs[1..][1..] == [];
      assert Beside(cs) == "x" + Beside(cs[1..]) && Beside(cs)[0] == 'x' && !R.IsSpace('x');
      assert HasElement(cs) && !FaithfulObject(cs);
    } else {
      assert cs[1..] == [Other("c"), CharData("y")] && cs[1..][1..] == [CharData("y")] && cs[1..][1..][1..] == [];
      assert !HasElement(cs);
    }
    assert Plain(cs) && !Faithful(e);
    assert !AllFaithful([e]) && Plain([e]);
    JsonDenotesTreeIff([e]);
  }

  lemma {:induction false} NoSpace(s: string, i: nat)
    requires i <= |s| && (i < |s| ==> !R.IsSpace(s[i]))
    ensures R.Skip(s, i) == i
  {
  }

  // ---------- Records ----------

  predicate FaithfulRecords(nodes: seq<Xml>) {
    nodes == [] || ((IsRecord(nodes[0]) ==> FaithfulObject(nodes[0].children)) && FaithfulRecords(nodes[1..]))
  }

  lemma {:induction false} FirstRecordIsReadIff(nodes: seq<Xml>, s: string, i: nat)
    requires Plain(nodes) && At(s, i, PrintRecords(nodes, true) + "]")
    ensures R.Skip(s, i) == i
    ensures Gives(if i < |s| && s[i] == ']' then R.Got([], i + 1) else R.ReadItems(s, i), Records(nodes),
                  i + |PrintRecords(nodes, true)| + 1, FaithfulRecords(nodes))
    decreases nodes, 1
  {
    if nodes == [] {
      assert PrintRecords(nodes, true) + "]" == [']'];
      AtOne(s, i, ']');
    } else if IsRecord(nodes[0]) {
      RecordListIsReadIff(nodes, s, i);
    } else {
      FirstRecordIsReadIff(nodes[1..], s, i);
    }
  }

  lemma {:induction false} RecordListIsReadIff(nodes: seq<Xml>, s: string, i: nat)
    requires nodes != [] && IsRecord(nodes[0])
    requires Plain(nodes) && At(s, i, PrintRecords(nodes, true) + "]")
    ensures i < |s| && s[i] == '{'
    ensures Gives(R.ReadItems(s, i), Records(nodes), i + |PrintRecords(nodes, true)| + 1, FaithfulRecords(nodes))
    decreases nodes, 0
  {
    hide At, Json, R.ReadValue, R.MoreItems, FaithfulObject, Object;
    var printed, more := Json(None, nodes[0].children), PrintRecords(nodes[1..], false);
    assert PrintRecords(nodes, true) + "]" == printed + (more + "]");
    AtSplit(s, i, printed, more + "]");
    ObjectStarts(nodes[0].children, s, i);
    ObjectIsReadIff(nodes[0].children, s, i);
    MoreRecordsIsReadIff(nodes[1..], s, i + |printed|);
    var first := R.ReadValue(s, i);
    if first.Got? {
      var later := R.MoreItems(s, first.next);
      if later.Got? {
        ConsIsInjective(first.value, later.value, Object(nodes[0].children), Records(nodes[1..]));
      }
    }
  }

  lemma {:induction false} ObjectStarts(nodes: seq<Xml>, s: string, i: nat)
    requires At(s, i, Json(None, nodes))
    ensures At(s, i, "{" + PrintNodes(nodes, true) + "}") && |Json(None, nodes)| == |PrintNodes(nodes, true)| + 2
    ensures i < |s| && s[i] == '{'
  {
    assert s[i + 0] == Json(None, nodes)[0];
  }

  lemma {:induction false} MoreRecordsIsReadIff(nodes: seq<Xml>, s: string, i: nat)
    requires Plain(nodes) && At(s, i, PrintRecords(nodes, false) + "]")
    ensures Gives(R.MoreItems(s, i), Records(nodes), i + |PrintRecords(nodes, false)| + 1, FaithfulRecords(nodes))
    decreases nodes, 1
  {
    if nodes == [] {
      assert PrintRecords(nodes, false) + "]" == [']'];
      AtOne(s, i, ']');
    } else if IsRecord(nodes[0]) {
      assert PrintRecords(nodes, false) + "]" == [','] + (PrintRecords(nodes, true) + "]");
      AtHead(s, i, ',', PrintRecords(nodes, true) + "]");
      RecordListIsReadIff(nodes, s, i + 1);
    } else {
      MoreRecordsIsReadIff(nodes[1..], s, i);
    }
  }

  /** `records_to_json` prints one member, read back as the array of the records' members exactly if
      their texts are clean. */
  lemma {:induction false} RecordArrayIsReadIff(nodes: seq<Xml>, s: string, i: nat)
    requires Plain(nodes) && At(s, i, PrintRecordArray(nodes))
    ensures Gives(R.ReadMember(s, i), R.Member("records", R.JArray(Records(nodes))), i + |PrintRecordArray(nodes)|,
                  FaithfulRecords(nodes))
  {
    hide At, FaithfulRecords, Records, R.ReadMember;
    var rest := PrintRecords(nodes, true) + "]";
    assert PrintRecordArray(nodes) == "\"" + "records" + "\": " + (['['] + rest);
    FixedNamesArePlain();
    NamedValue("records", ['['] + rest, s, i);
    AtHead(s, i + 11, '[', rest);
    FirstRecordIsReadIff(nodes, s, i + 12);
  }

  // ---------- The whole report ----------

  predicate FaithfulSections(nodes: seq<Xml>) {
    nodes == [] ||
    ((IsMetadata(nodes[0]) || IsPolicy(nodes[0]) ==> FaithfulObject(nodes[0].children)) && FaithfulSections(nodes[1..]))
  }

  /** Nothing stands before a metadata section, which is printed without a comma. */
  predicate WellPlaced(nodes: seq<Xml>, started: bool) {
    nodes == [] ||
    if IsMetadata(nodes[0]) then !started && WellPlaced(nodes[1..], true)
    else WellPlaced(nodes[1..], started || IsPolicy(nodes[0]))
  }

  lemma {:induction false} NamedObjectIsReadIff(name: string, nodes: seq<Xml>, s: string, i: nat)
    requires PlainName(name) && Plain(nodes) && At(s, i, Json(Some(name), nodes))
    ensures i + |Json(Some(name), nodes)| <= |s| && s[i] == '"'
    ensures Gives(R.ReadMember(s, i), R.Member(name, Object(nodes)), i + |Json(Some(name), nodes)|,
                  FaithfulObject(nodes))
  {
    hide R.ReadMember, R.ReadValue, FaithfulObject, Object, PrintNodes, At, Plain, PlainName;
    var text := "{" + PrintNodes(nodes, true) + "}";
    AtFits(s, i, Json(Some(name), nodes));
    assert Json(Some(name), nodes) == "\"" + name + "\": " + text;
    assert text[0] == '{';
    NamedValue(name, text, s, i);
    ObjectIsReadIff(nodes, s, i + |name| + 4);
  }

  function AllMembers(sections: seq<Xml>, nodes: seq<Xml>): seq<R.Member> {
    Sections(sections) + [R.Member("records", R.JArray(Records(nodes)))]
  }

  lemma {:induction false} LastIsReadIff(nodes: seq<Xml>, s: string, i: nat)
    requires Plain(nodes) && At(s, i, PrintRecordArray(nodes) + "}")
    ensures i < |s| && s[i] == '"'
    ensures GivesList(R.ReadMembers(s, i), AllMembers([], nodes),
                      i + |PrintRecordArray(nodes)| + 1, FaithfulRecords(nodes))
  {
    hide R.ReadMember, FaithfulRecords, Records;
    var records := PrintRecordArray(nodes);
    AtSplit(s, i, records, "}");
    AtOne(s, i + |records|, '}');
    assert s[i + 0] == records[0];
    RecordArrayIsReadIff(nodes, s, i);
    MembersIsReadIff(R.Member("records", R.JArray(Records(nodes))), i + |records|, FaithfulRecords(nodes), [],
                     i + |records| + 1, true, s, i);
    assert AllMembers([], nodes) == [R.Member("records", R.JArray(Records(nodes)))] + [];
  }

  lemma {:induction false} MoreSectionsIsReadIff(sections: seq<Xml>, nodes: seq<Xml>, s: string, i: nat)
    requires Plain(sections) && Plain(nodes)
    requires At(s, i, PrintSections(sections, true) + ("," + (PrintRecordArray(nodes) + "}")))
    ensures GivesList(R.MoreMembers(s, i), AllMembers(sections, nodes),
                  i + |PrintSections(sections, true)| + |PrintRecordArray(nodes)| + 2,
                  WellPlaced(sections, true) && FaithfulSections(sections) && FaithfulRecords(nodes))
    decreases sections, 1
  {
    hide R.ReadMembers, At, FaithfulObject, FaithfulRecords, Json, PrintRecordArray, Plain, Records;
    var tail := "," + (PrintRecordArray(nodes) + "}");
    if sections == [] {
      assert PrintSections(sections, true) + tail == [','] + (PrintRecordArray(nodes) + "}");
      AtHead(s, i, ',', PrintRecordArray(nodes) + "}");
      LastIsReadIff(nodes, s, i + 1);
    } else if IsMetadata(sections[0]) {
      MetadataStarts(sections, tail, s, i);
    } else if IsPolicy(sections[0]) {
      assert PrintSections(sections, true) + tail == [','] + (PrintSections(sections, false) + tail);
      AtHead(s, i, ',', PrintSections(sections, false) + tail);
      SectionListIsReadIff(sections, nodes, s, i + 1);
    } else {
      PlainRest(sections);
      MoreSectionsIsReadIff(sections[1..], nodes, s, i);
    }
  }

  lemma {:induction false} MetadataStarts(sections: seq<Xml>, tail: string, s: string, i: nat)
    requires sections != [] && IsMetadata(sections[0]) && At(s, i, PrintSections(sections, true) + tail)
    ensures i < |s| && s[i] == '"'
  {
    assert s[i + 0] == (PrintSections(sections, true) + tail)[0] == Json(Some("metadata"), sections[0].children)[0];
  }

  lemma {:induction false} SectionListIsReadIff(sections: seq<Xml>, nodes: seq<Xml>, s: string, i: nat)
    requires sections != [] && (IsMetadata(sections[0]) || IsPolicy(sections[0]))
    requires Plain(sections) && Plain(nodes)
    requires At(s, i, PrintSections(sections, false) + ("," + (PrintRecordArray(nodes) + "}")))
    ensures i < |s| && s[i] == '"'
    ensures GivesList(R.ReadMembers(s, i), AllMembers(sections, nodes),
                  i + |PrintSections(sections, false)| + |PrintRecordArray(nodes)| + 2,
                  WellPlaced(sections, false) && FaithfulSections(sections) && FaithfulRecords(nodes))
    decreases sections, 0
  {
    hide R.ReadMembers, R.ReadMember, R.MoreMembers, At, FaithfulObject, FaithfulRecords, Json, PrintRecordArray, Plain,
         PlainName, Records, Gives, GivesList;
    PlainRest(sections);
    var tail := "," + (PrintRecordArray(nodes) + "}");
    var name := if IsMetadata(sections[0]) then "metadata" else "policy";
    var printed, more := Json(Some(name), sections[0].children), PrintSections(sections[1..], true);
    assert PrintSections(sections, false) + tail == printed + (more + tail);
    AtSplit(s, i, printed, more + tail);
    FixedNamesArePlain();
    NamedObjectIsReadIff(name, sections[0].children, s, i);
    MoreSectionsIsReadIff(sections[1..], nodes, s, i + |printed|);
    var m := R.Member(name, Object(sections[0].children));
    assert [m] + AllMembers(sections[1..], nodes) == AllMembers(sections, nodes);
    MembersIsReadIff(m, i + |printed|, FaithfulObject(sections[0].children), AllMembers(sections[1..], nodes),
                     i + |printed| + |more| + |PrintRecordArray(nodes)| + 2,
                     WellPlaced(sections[1..], true) && FaithfulSections(sections[1..])
                     && FaithfulRecords(nodes), s, i);
  }

  lemma {:induction false} FirstSectionIsReadIff(sections: seq<Xml>, nodes: seq<Xml>, s: string, i: nat)
    requires Plain(sections) && Plain(nodes)
    requires var p := PrintSections(sections, false);
             At(s, i, p + (if p == [] then "" else ",") + PrintRecordArray(nodes) + "}")
    ensures i < |s| && s[i] == '"'
    ensures var p := PrintSections(sections, false);
            GivesList(R.ReadMembers(s, i), AllMembers(sections, nodes),
                  i + |p| + (if p == [] then 0 else 1) + |PrintRecordArray(nodes)| + 1,
                  WellPlaced(sections, false) && FaithfulSections(sections) && FaithfulRecords(nodes))
    decreases sections
  {
    hide R.ReadMembers, At, FaithfulObject, FaithfulRecords, Json, PrintRecordArray, Plain, Records;
    var p, records := PrintSections(sections, false), PrintRecordArray(nodes);
    if sections == [] {
      assert p + "" + records + "}" == records + "}";
      LastIsReadIff(nodes, s, i);
    } else if IsMetadata(sections[0]) || IsPolicy(sections[0]) {
      assert p + "," + records + "}" == p + ("," + (records + "}"));
      SectionListIsReadIff(sections, nodes, s, i);
    } else {
      PlainRest(sections);
      FirstSectionIsReadIff(sections[1..], nodes, s, i);
    }
  }

  /** Between braces, the report is one JSON text that denotes its sections and its records exactly if
      those are faithful and a metadata section, if any, is printed first and only once. */
  lemma {:induction false} ReportDenotesIff(nodes: seq<Xml>)
    requires Plain(nodes)
    ensures R.Denotes("{" + PrintReport(nodes) + "}", R.JObject(AllMembers(nodes, nodes))) <==>
            WellPlaced(nodes, false) && FaithfulSections(nodes) && FaithfulRecords(nodes)
  {
    hide R.Chars, R.Skip, R.ReadMembers, R.ReadItems, PrintSections, FaithfulSections, FaithfulRecords, WellPlaced,
         PrintRecordArray, Plain, AllMembers, At;
    var p := PrintSections(nodes, false);
    var rest := p + (if p == [] then "" else ",") + PrintRecordArray(nodes) + "}";
    var s := "{" + PrintReport(nodes) + "}";
    assert s == ['{'] + rest;
    WholeAt(s);
    AtHead(s, 0, '{', rest);
    FirstSectionIsReadIff(nodes, nodes, s, 1);
    NoSpace(s, 0);
    NoSpace(s, 1);
    NoSpace(s, |s|);
  }

  // A report by the names of its elements.

  function RecordElements(rs: seq<seq<Xml>>): seq<Xml> {
    if rs == [] then [] else [Element("record", rs[0])] + RecordElements(rs[1..])
  }

  function Objects(rs: seq<seq<Xml>>): (r: seq<R.Json>)
    ensures |r| == |rs| && forall k :: 0 <= k < |rs| ==> r[k] == Object(rs[k])
  {
    if rs == [] then [] else [Object(rs[0])] + Objects(rs[1..])
  }

  function ReportOf(metadata: seq<Xml>, policy: seq<Xml>, rs: seq<seq<Xml>>): seq<Xml> {
    [Element("report_metadata", metadata), Element("policy_published", policy)] + RecordElements(rs)
  }

  lemma {:induction false} OnlyRecords(rs: seq<seq<Xml>>)
    ensures var nodes := RecordElements(rs);
            && Records(nodes) == Objects(rs) && Sections(nodes) == [] && WellPlaced(nodes, true)
            && FaithfulSections(nodes)
            && (FaithfulRecords(nodes) <==> forall k :: 0 <= k < |rs| ==> FaithfulObject(rs[k]))
  {
    hide Object, FaithfulObject;
    if rs != [] {
      OnlyRecords(rs[1..]);
      assert RecordElements(rs)[1..] == RecordElements(rs[1..]);
      AllFaithfulFront(rs);
    }
  }

  lemma AllFaithfulFront(rs: seq<seq<Xml>>)
    requires rs != []
    ensures (forall k :: 0 <= k < |rs| ==> FaithfulObject(rs[k])) <==>
            FaithfulObject(rs[0]) && forall k :: 0 <= k < |rs[1..]| ==> FaithfulObject(rs[1..][k])
  {
    hide FaithfulObject;
    var rest := rs[1..];
    assert forall k :: 0 < k < |rs| ==> rs[k] == rest[k - 1];
    if forall k :: 0 <= k < |rs| ==> FaithfulObject(rs[k]) {
      forall k | 0 <= k < |rest|
        ensures FaithfulObject(rest[k])
      {
        assert rest[k] == rs[k + 1];
      }
    }
  }

  lemma {:induction false} PartsOfReport(metadata: seq<Xml>, policy: seq<Xml>, rs: seq<seq<Xml>>)
    ensures var nodes := ReportOf(metadata, policy, rs);
            && AllMembers(nodes, nodes) ==
               [R.Member("metadata", Object(metadata)), R.Member("policy", Object(policy)),
                R.Member("records", R.JArray(Objects(rs)))]
            && WellPlaced(nodes, false)
            && (FaithfulSections(nodes) <==> FaithfulObject(metadata) && FaithfulObject(policy))
            && (FaithfulRecords(nodes) <==> forall k :: 0 <= k < |rs| ==> FaithfulObject(rs[k]))
  {
    hide Object, FaithfulObject;
    var nodes := ReportOf(metadata, policy, rs);
    OnlyRecords(rs);
    assert nodes[1..] == [Element("policy_published", policy)] + RecordElements(rs);
    assert nodes[1..][1..] == RecordElements(rs);
    assert Sections(nodes[1..]) == [R.Member("policy", Object(policy))] + [];
    assert Sections(nodes) == [R.Member("metadata", Object(metadata))] + Sections(nodes[1..]);
    assert Records(nodes) == Records(nodes[1..]) == Objects(rs);
  }

  /** A report of the usual shape denotes its metadata, its policy and the array of its records, in that
      order, exactly if all of them are faithful. */
  lemma {:induction false} ReportOfDenotesIff(metadata: seq<Xml>, policy: seq<Xml>, rs: seq<seq<Xml>>)
    requires Plain(ReportOf(metadata, policy, rs))
    ensures R.Denotes("{" + PrintReport(ReportOf(metadata, policy, rs)) + "}",
                      R.JObject([R.Member("metadata", Object(metadata)), R.Member("policy", Object(policy)),
                                 R.Member("records", R.JArray(Objects(rs)))])) <==>
            && FaithfulObject(metadata) && FaithfulObject(policy)
            && forall k :: 0 <= k < |rs| ==> FaithfulObject(rs[k])
  {
    hide Object, FaithfulObject, R.Denotes, PrintReport, AllMembers, Plain, ReportOf;
    PartsOfReport(metadata, policy, rs);
    ReportDenotesIff(ReportOf(metadata, policy, rs));
  }

  lemma {:induction false} OtherSection(a: seq<Xml>, x: Xml, b: seq<Xml>, started: bool)
    requires !(x.Element? && x.name in {"report_metadata", "policy_published", "record"})
    ensures PrintSections(a + [x] + b, started) == PrintSections(a + b, started)
    decreases |a|
  {
    hide Json;
    if a == [] {
      assert [] + [x] + b == [x] + b && [] + b == b && ([x] + b)[1..] == b;
    } else {
      assert (a + [x] + b)[1..] == a[1..] + [x] + b && (a + b)[1..] == a[1..] + b;
      OtherSection(a[1..], x, b, true);
      OtherSection(a[1..], x, b, started);
    }
  }

  lemma {:induction false} OtherRecord(a: seq<Xml>, x: Xml, b: seq<Xml>, first: bool)
    requires !(x.Element? && x.name in {"report_metadata", "policy_published", "record"})
    ensures PrintRecords(a + [x] + b, first) == PrintRecords(a + b, first)
    decreases |a|
  {
    hide Json;
    if a == [] {
      assert [] + [x] + b == [x] + b && [] + b == b && ([x] + b)[1..] == b;
    } else {
      assert (a + [x] + b)[1..] == a[1..] + [x] + b && (a + b)[1..] == a[1..] + b;
      OtherRecord(a[1..], x, b, false);
      OtherRecord(a[1..], x, b, first);
    }
  }

  /** Anything else in a report is left out, wherever it stands. */
  lemma OtherNodesAreLeftOut(a: seq<Xml>, x: Xml, b: seq<Xml>)
    requires !(x.Element? && x.name in {"report_metadata", "policy_published", "record"})
    ensures PrintReport(a + [x] + b) == PrintReport(a + b)
  {
    OtherSection(a, x, b, false);
    OtherRecord(a, x, b, true);
  }

  lemma NameAloneDenotesNothing(name: string, rest: string, s: string, v: R.Json)
    requires PlainName(name) && s == "\"" + name + "\": " + rest
    ensures !R.Denotes(s, v)
  {
    hide R.Chars, R.Skip, R.ReadMembers, R.ReadItems, PlainName, At;
    WholeAt(s);
    Named(name, rest, s, 0);
    NoSpace(s, 0);
    NoSpace(s, |name| + 2);
  }

  lemma ObjectText(name: string, inner: string, more: string, tail: string)
    ensures Opening(Some(name)) + inner + "}" + more + tail == "\"" + name + "\": " + ("{" + inner + "}" + more + tail)
  {
    var head := "\"" + name + "\": ";
    assert Opening(Some(name)) == head + "{";
    assert head + "{" + inner + "}" + more + tail == head + ("{" + inner + "}" + more + tail);
  }

  lemma {:induction false} SectionsDenoteNothing(nodes: seq<Xml>, tail: string, s: string, v: R.Json)
    requires PrintSections(nodes, false) != [] && s == PrintSections(nodes, false) + tail
    ensures !R.Denotes(s, v)
  {
    hide PlainName, R.Denotes, PrintNodes, Opening;
    if IsMetadata(nodes[0]) || IsPolicy(nodes[0]) {
      FixedNamesArePlain();
      var name := if IsMetadata(nodes[0]) then "metadata" else "policy";
      var inner, more := PrintNodes(nodes[0].children, true), PrintSections(nodes[1..], true);
      ObjectText(name, inner, more, tail);
      var rest := "{" + inner + "}" + more + tail;
      NameAloneDenotesNothing(name, rest, s, v);
    } else {
      SectionsDenoteNothing(nodes[1..], tail, s, v);
    }
  }

  /** What `parse_xml` leaves in the buffer has no braces around it, and so is no JSON text at all. */
  lemma BareReportDenotesNothing(nodes: seq<Xml>, v: R.Json)
    ensures !R.Denotes(PrintReport(nodes), v)
  {
    hide PlainName, R.Denotes;
    var p, s := PrintSections(nodes, false), PrintReport(nodes);
    if p == [] {
      FixedNamesArePlain();
      var rest := "[" + PrintRecords(nodes, true) + "]";
      assert s == "\"" + "records" + "\": " + rest;
      NameAloneDenotesNothing("records", rest, s, v);
    } else {
      assert s == p + ("," + PrintRecordArray(nodes));
      SectionsDenoteNothing(nodes, "," + PrintRecordArray(nodes), s, v);
    }
  }

  // ---------- Why comments must not start with a quote ----------

  function Leaf(name: string): Xml {
    Element(name, [])
  }

  const OPENING: string := "\",\"b\": {\"c\": {\"y\": \""
  const CLOSING: string := "\"}},\"z\": \""
  const NESTING: string := "\"b\": {\"c\": {"

  function TextMember(name: string, text: string): string {
    "\"" + name + "\": " + ("\"" + text + "\"")
  }

  lemma {:induction false} EscapeKeeps(t: string)
    requires forall k :: 0 <= k < |t| ==> EscapeChar(t[k]) == [t[k]]
    ensures Escape(t) == t
  {
    if t != [] {
      EscapeKeeps(t[1..]);
    }
  }

  lemma {:induction false} ThreeMembers(x: Xml, y: Xml, z: Xml)
    requires x.Element? && y.Element? && z.Element?
    ensures PrintNodes([x, y, z], true) == PrintMember(x) + "," + PrintMember(y) + "," + PrintMember(z)
    ensures Object([x, y, z]) ==
            R.JObject([R.Member(x.name, Value(x)), R.Member(y.name, Value(y)), R.Member(z.name, Value(z))])
  {
    hide PrintMember, Value;
    assert [x, y, z][1..] == [y, z] && [y, z][1..] == [z] && [z][1..] == [];
    assert PrintNodes([z], false) == "," + PrintMember(z);
    assert PrintNodes([y, z], false) == "," + PrintMember(y) + ("," + PrintMember(z));
    assert Members([z]) == [R.Member(z.name, Value(z))];
    assert Members([y, z]) == [R.Member(y.name, Value(y))] + Members([z]);
    assert Beside([z]) == [] && Beside([y, z]) == [] && Beside([x, y, z]) == [];
  }

  lemma CommentMember(name: string, comment: string)
    requires forall k :: 0 <= k < |comment| ==> EscapeChar(comment[k]) == [comment[k]]
    ensures var e := Element(name, [Other(comment)]);
            PrintMember(e) == TextMember(name, comment) && Value(e) == R.JString("")
  {
    EscapeKeeps(comment);
    var cs := [Other(comment)];
    assert cs[1..] == [];
    assert !HasElement(cs) && DataIn(cs) == [];
  }

  lemma LeafMember(name: string)
    ensures PrintMember(Leaf(name)) == TextMember(name, "") && Value(Leaf(name)) == R.JString("")
    ensures Faithful(Leaf(name))
  {
  }

  /** The inner element alone is printed as its text ... */
  lemma {:induction false} Alone(c: Xml)
    requires c.Element? && Content(c) == ""
    ensures PrintMember(Element("b", [c])) == TextMember("b", "") && !Faithful(Element("b", [c]))
    ensures Value(Element("b", [c])) == R.JObject([R.Member(c.name, Value(c))])
  {
    hide Content, PrintNodes;
    assert Escape("") == "";
    assert [c][1..] == [] && Members([]) == [];
    assert HasElement([c]) && Members([c]) == [R.Member(c.name, Value(c))];
    assert Beside([c]) == [] + Beside([]) == [];
  }

  /** ... and with blank data beside it as a member of an object. */
  lemma {:induction false} WithSpace(c: Xml, space: Xml)
    requires c.Element? && space.CharData? && Blank(space.content)
    ensures PrintMember(Element("b", [c, space])) == "\"b\": " + ("{" + PrintMember(c) + "}")
    ensures Value(Element("b", [c, space])) == R.JObject([R.Member(c.name, Value(c))])
    ensures Faithful(Element("b", [c, space])) <==> Faithful(c)
  {
    hide PrintMember;
    var cs := [c, space];
    assert cs[1..] == [space] && [space][1..] == [];
    assert PrintNodes([space], false) == PrintNodes([], false) == [] && PrintNodes(cs, true) == PrintMember(c);
    assert Members([space]) == Members([]) == [] && Members(cs) == [R.Member(c.name, Value(c))];
    assert Beside([space]) == space.content + Beside([]) == space.content && Beside(cs) == [] + Beside([space]);
    assert AllFaithful([space]) && HasElement(cs);
    assert AllFaithful(cs) <==> Faithful(cs[0]) && AllFaithful(cs[1..]);
    TwoChildren(cs);
  }

  lemma {:induction false} TwoChildren(cs: seq<Xml>)
    requires |cs| == 2
    ensures PrintMember(Element("b", cs)) == "\"b\": " + ("{" + PrintNodes(cs, true) + "}")
  {
    assert "\"" + "b" + "\": " == "\"b\": ";
  }

  lemma {:induction false} ObjectMember(c: Xml)
    requires c.Element? && |c.children| > 1
    ensures PrintMember(c) == "\"" + c.name + "\": " + ("{" + PrintNodes(c.children, true) + "}")
    ensures Faithful(c) <==> HasElement(c.children) && FaithfulObject(c.children)
  {
  }

  lemma {:induction false} NoChildren(e: Xml)
    requires e.Element? && e.children == []
    ensures Content(e) == [] && Faithful(e)
  {
  }

  lemma {:induction false} NoData(nodes: seq<Xml>)
    requires |nodes| == 3 && forall k :: 0 <= k < 3 ==> nodes[k].Element? && nodes[k].children == []
    ensures DataIn(nodes) == [] && HasElement(nodes) && FaithfulObject(nodes)
  {
    var two, one := nodes[1..], nodes[2..];
    assert two[1..] == one && one[1..] == [];
    NoChildren(nodes[0]);
    NoChildren(nodes[1]);
    NoChildren(nodes[2]);
    assert one[0] == nodes[2] && DataIn(one) == Content(nodes[2]) + DataIn([]);
    assert two[0] == nodes[1] && DataIn(two) == Content(nodes[1]) + DataIn(one);
    assert Beside(one) == [] + Beside([]) && Beside(two) == [] + Beside(one);
    assert AllFaithful(one) && AllFaithful(two);
  }

  lemma Regroup(la: string, nesting: string, ly: string, lb: string, lz: string, end: string)
    ensures (la + "," + nesting + ly) + "," + lb + "," + (lz + end + "," + lz) ==
            la + "," + (nesting + (ly + "," + lb + "," + lz) + end) + "," + lz
  {
  }

  /** The comments as text, cut where the members end. */
  lemma OpeningAgrees()
    ensures TextMember("a", OPENING) == TextMember("a", "") + "," + NESTING + TextMember("y", "")
  {
  }

  lemma ClosingAgrees()
    ensures TextMember("z", CLOSING) == TextMember("z", "") + "}}" + "," + TextMember("z", "")
  {
  }

  lemma NestingAgrees(inner: string)
    ensures "\"b\": " + ("{" + ("\"" + "c" + "\": " + ("{" + inner + "}")) + "}") == NESTING + inner + "}}"
  {
    assert "\"b\": " + ("{" + ("\"" + "c" + "\": " + "{")) == NESTING;
  }

  lemma TextsAreKept()
    ensures forall k :: 0 <= k < |OPENING| ==> EscapeChar(OPENING[k]) == [OPENING[k]]
    ensures forall k :: 0 <= k < |CLOSING| ==> EscapeChar(CLOSING[k]) == [CLOSING[k]]
  {
  }

  /** Two comments can spell out the nesting that a sole element between them loses: the tree is not
      faithful, and yet its text denotes it. */
  lemma CommentsConspire()
    ensures var c := Element("c", [Leaf("y"), Leaf("b"), Leaf("z")]);
            var nodes := [Element("a", [Other(OPENING)]), Element("b", [c]), Element("z", [Other(CLOSING)])];
            !FaithfulObject(nodes) && R.Denotes(Json(None, nodes), Object(nodes))
  {
    hide PrintNodes, PrintMember, Value, Object, Escape, R.Denotes, Faithful, FaithfulObject, PlainName, TextMember;
    var inner := [Leaf("y"), Leaf("b"), Leaf("z")];
    var c, space := Element("c", inner), CharData(" ");
    var a, b, z := Element("a", [Other(OPENING)]), Element("b", [c]), Element("z", [Other(CLOSING)]);
    var b' := Element("b", [c, space]);
    NoData(inner);
    Alone(c);
    WithSpace(c, space);
    assert PrintMember(c) == "\"" + "c" + "\": " + ("{" + PrintNodes(inner, true) + "}") by {
      ObjectMember(c);
    }
    assert Faithful(c) by {
      ObjectMember(c);
    }
    ThreeMembers(a, b, z);
    ThreeMembers(Leaf("a"), b', Leaf("z"));
    ThreeMembers(Leaf("y"), Leaf("b"), Leaf("z"));
    OpeningAgrees();
    ClosingAgrees();
    NestingAgrees(PrintNodes(inner, true));
    TextsAreKept();
    CommentMember("a", OPENING);
    CommentMember("z", CLOSING);
    LeafMember("a");
    LeafMember("y");
    LeafMember("b");
    LeafMember("z");
    Regroup(TextMember("a", ""), NESTING, TextMember("y", ""), TextMember("b", ""), TextMember("z", ""), "}}");
    FaithfulThree(a, b, z);
    FaithfulThree(Leaf("a"), b', Leaf("z"));
    ThreePlainNames(Leaf("y"), Leaf("b"), Leaf("z"));
    TwoPlainNames(c, space);
    ThreePlainNames(Leaf("a"), b', Leaf("z"));
    FaithfulTreeIsDenoted([Leaf("a"), b', Leaf("z")]);
  }

  lemma ThreePlainNames(x: Xml, y: Xml, z: Xml)
    requires forall e :: e in {x, y, z} ==> e.Element? && |e.name| == 1 && PlainChar(e.name[0])
    requires forall e :: e in {x, y, z} ==> PlainNames(e.children)
    ensures PlainNames([x, y, z])
  {
    assert [x, y, z][1..] == [y, z] && [y, z][1..] == [z] && [z][1..] == [];
    assert PlainNames([z]) && PlainNames([y, z]);
  }

  lemma TwoPlainNames(c: Xml, data: Xml)
    requires c.Element? && |c.name| == 1 && PlainChar(c.name[0]) && PlainNames(c.children) && data.CharData?
    ensures PlainNames([c, data])
  {
    assert [c, data][1..] == [data] && [data][1..] == [];
  }

  lemma {:induction false} FaithfulThree(x: Xml, y: Xml, z: Xml)
    requires x.Element? && y.Element? && z.Element?
    ensures FaithfulObject([x, y, z]) <==> Faithful(x) && Faithful(y) && Faithful(z)
  {
    hide Faithful;
    assert [x, y, z][1..] == [y, z] && [y, z][1..] == [z] && [z][1..] == [];
    assert Beside([z]) == [] && Beside([y, z]) == [] && Beside([x, y, z]) == [];
    assert AllFaithful([z]) <==> Faithful(z);
    assert AllFaithful([y, z]) <==> Faithful(y) && Faithful(z);
  }
}
