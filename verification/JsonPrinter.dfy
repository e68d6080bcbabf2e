/** Printing a parsed XML report as JSON. */
module JsonPrinter {
  import opened CString
  import opened Wrappers

  /** A node of the parsed document: an element, character data, or anything else (a comment, say). */
  datatype Xml = Element(name: string, children: seq<Xml>) | CharData(content: string) | Other(content: string)

  /** `xmlNodeGetContent`: the character data below an element, or what a single node holds. */
  function Content(n: Xml): string
    decreases n, 1
  {
    match n
    case Element(_, children) => DataIn(children)
    case CharData(content) => content
    case Other(content) => content
  }

  function DataIn(nodes: seq<Xml>): string
    decreases nodes, 0
  {
    if nodes == [] then []
    else (if nodes[0].Other? then [] else Content(nodes[0])) + DataIn(nodes[1..])
  }

  // ---------- What is printed ----------

  function EscapeChar(c: char): (r: string)
    ensures 1 <= |r| <= 2
  {
    if c == '\t' then "\\t"
    else if c == '\n' then "\\n"
    else if c == '\\' then "\\\\"
    else if c == '\r' then "\\r"
    else [c]
  }

  function Escape(s: string): (r: string)
    ensures |s| <= |r| <= 2 * |s|
  {
    if s == [] then [] else EscapeChar(s[0]) + Escape(s[1..])
  }

  /** What stands after the name and colon of an element: its text if it has at most one child, else
      an object of its child elements. */
  function PrintValue(e: Xml): string
    requires e.Element?
    decreases e, 1
  {
    if e.children == [] then "\"\""
    else if |e.children| == 1 then "\"" + Escape(Content(e.children[0])) + "\""
    else "{" + PrintNodes(e.children, true) + "}"
  }

  function PrintMember(e: Xml): string
    requires e.Element?
    decreases e, 2
  {
    "\"" + e.name + "\": " + PrintValue(e)
  }

  /** The elements among siblings, separated by commas. */
  function PrintNodes(nodes: seq<Xml>, first: bool): string
    decreases nodes, 0
  {
    if nodes == [] then []
    else if nodes[0].Element? then (if first then "" else ",") + PrintMember(nodes[0]) + PrintNodes(nodes[1..], false)
    else PrintNodes(nodes[1..], first)
  }

  function Opening(name: Option<string>): string {
    if name.Some? then "\"" + name.value + "\": {" else "{"
  }

  function Json(name: Option<string>, nodes: seq<Xml>): (r: string)
    ensures r != []
  {
    Opening(name) + PrintNodes(nodes, true) + "}"
  }

  predicate IsRecord(n: Xml) {
    n.Element? && n.name == "record"
  }

  function PrintRecords(nodes: seq<Xml>, first: bool): string {
    if nodes == [] then []
    else if IsRecord(nodes[0]) then
      (if first then "" else ",") + Json(None, nodes[0].children) + PrintRecords(nodes[1..], false)
    else PrintRecords(nodes[1..], first)
  }

  function PrintRecordArray(nodes: seq<Xml>): string {
    "\"records\": [" + PrintRecords(nodes, true) + "]"
  }

  predicate IsMetadata(n: Xml) {
    n.Element? && n.name == "report_metadata"
  }

  predicate IsPolicy(n: Xml) {
    n.Element? && n.name == "policy_published"
  }

  /** The metadata and policy sections of a report; only a policy section sees whether anything was
      printed before it. */
  function PrintSections(nodes: seq<Xml>, started: bool): string {
    if nodes == [] then []
    else if IsMetadata(nodes[0]) then Json(Some("metadata"), nodes[0].children) + PrintSections(nodes[1..], true)
    else if IsPolicy(nodes[0]) then
      (if started then "," else "") + Json(Some("policy"), nodes[0].children) + PrintSections(nodes[1..], true)
    else PrintSections(nodes[1..], started)
  }

  function PrintReport(nodes: seq<Xml>): string {
    var sections := PrintSections(nodes, false);
    sections + (if sections == [] then "" else ",") + PrintRecordArray(nodes)
  }

  // ---------- The code ----------

  /** A growing string. */
  class StringBuffer {
    var str: string

    constructor ()
      ensures str == []
    {
      str := [];
    }

    method Append(value: string)
      modifies this
      ensures str == old(str) + value
    {
      str := str + value;
    }
  }

  lemma {:induction false} EscapeSnoc(s: string, c: char)
    ensures Escape(s + [c]) == Escape(s) + EscapeChar(c)
  {
    if s == [] {
      assert [c][1..] == [];
    } else {
      assert (s + [c])[1..] == s[1..] + [c];
      EscapeSnoc(s[1..], c);
    }
  }

  /** `json_escape`: the result fits the `2 * len + 1` characters allocated. */
  method JsonEscape(str: array<char>, len: nat, ghost text: string) returns (esc: array<char>)
    requires len == |text| && Holds(str, text) && NUL !in text
    ensures fresh(esc) && esc.Length == 2 * len + 1
    ensures NUL in esc[..] && Text(esc[..]) == Escape(text)
  {
    esc := new char[len * 2 + 1];
    var c := 0;
    for i := 0 to len
      invariant c == |Escape(text[..i])| && Holds(esc, Escape(text[..i])) && NUL !in Escape(text[..i])
    {
      assert text[..i + 1] == text[..i] + [text[i]];
      EscapeSnoc(text[..i], text[i]);
      ghost var done := Escape(text[..i]);
      assert |done| <= 2 * i;
      if str[i] == '\t' {
        esc[c], esc[c + 1] := '\\', 't';
        c := c + 2;
      } else if str[i] == '\n' {
        esc[c], esc[c + 1] := '\\', 'n';
        c := c + 2;
      } else if str[i] == '\\' {
        esc[c], esc[c + 1] := '\\', '\\';
        c := c + 2;
      } else if str[i] == '\r' {
        esc[c], esc[c + 1] := '\\', 'r';
        c := c + 2;
      } else {
        esc[c] := str[i];
        c := c + 1;
      }
      assert Holds(esc, done + EscapeChar(text[i]));
    }
    assert text[..len] == text;
    Terminate(esc, c, Escape(text));
  }

  lemma {:induction false} PrintStep(nodes: seq<Xml>, i: nat, first: bool)
    requires i < |nodes|
    ensures PrintNodes(nodes[i..], first) ==
            if nodes[i].Element? then
              (if first then "" else ",") + PrintMember(nodes[i]) + PrintNodes(nodes[i + 1..], false)
            else PrintNodes(nodes[i + 1..], first)
  {
    assert nodes[i..][1..] == nodes[i + 1..];
  }

  lemma {:induction false} PrintNothing(nodes: seq<Xml>, first: bool)
    requires nodes == []
    ensures PrintNodes(nodes, first) == []
  {
  }

  /** The start of `to_json`. */
  method OpenObject(name: Option<string>, sb: StringBuffer)
    modifies sb
    ensures sb.str == old(sb.str) + Opening(name)
  {
    if name.Some? {
      sb.Append("\"");
      sb.Append(name.value);
      sb.Append("\": {");
      assert sb.str == old(sb.str) + ("\"" + name.value + "\": {");
    } else {
      sb.Append("{");
    }
  }

  lemma {:induction false} MemberIsPrinted(e: Xml)
    requires e.Element?
    ensures e.children == [] ==> PrintMember(e) == "\"" + e.name + "\": \"\""
    ensures |e.children| == 1 ==>
              PrintMember(e) == "\"" + e.name + "\": \"" + Escape(Content(e.children[0])) + "\""
    ensures |e.children| > 1 ==> PrintMember(e) == Json(Some(e.name), e.children)
  {
    hide Escape, Content, PrintNodes;
    assert "\": \"" == "\": " + "\"" && "\": \"\"" == "\": " + "\"\"" && "\": {" == "\": " + "{";
  }

  lemma Appended(start: string, a: string, b: string, c: string, d: string, e: string)
    ensures start + a + b + c + d + e == start + (a + b + c + d + e)
  {
  }

  /** One round of the loop of `to_json`: the member for an element. The escaping of a text is
      `JsonEscape`'s. */
  method AppendMember(e: Xml, sb: StringBuffer)
    requires e.Element?
    modifies sb
    ensures sb.str == old(sb.str) + PrintMember(e)
    decreases e, 0
  {
    hide Escape, Content, PrintNodes, PrintMember, Json;
    MemberIsPrinted(e);
    ghost var start := sb.str;
    if e.children != [] {
      if |e.children| == 1 {
        var value := Escape(Content(e.children[0]));
        sb.Append("\"");
        sb.Append(e.name);
        sb.Append("\": \"");
        sb.Append(value);
        sb.Append("\"");
        Appended(start, "\"", e.name, "\": \"", value, "\"");
      } else {
        ToJson(Some(e.name), e.children, sb);
      }
    } else {
      sb.Append("\"");
      sb.Append(e.name);
      sb.Append("\": \"\"");
      AssocTwice(start, "\"", e.name, "\": \"\"");
    }
  }

  /** `to_json`: print the siblings as an object, under a name if one is given. */
  method ToJson(name: Option<string>, nodes: seq<Xml>, sb: StringBuffer)
    modifies sb
    ensures sb.str == old(sb.str) + Json(name, nodes)
    decreases nodes, 1
  {
    hide PrintNodes, PrintMember, Opening;
    ghost var start := sb.str;
    var first := true;
    OpenObject(name, sb);
    ghost var head := sb.str;
    for i := 0 to |nodes|
      invariant sb.str + PrintNodes(nodes[i..], first) == head + PrintNodes(nodes, true)
    {
      PrintStep(nodes, i, first);
      ghost var rest, was := PrintNodes(nodes[i + 1..], false), sb.str;
      var cur := nodes[i];
      if cur.Element? {
        ghost var comma := if first then "" else ",";
        if !first {
          sb.Append(",");
        } else {
          first := false;
        }
        AppendMember(cur, sb);
        AssocTwice(was, comma, PrintMember(cur), rest);
        assert sb.str == was + comma + PrintMember(cur);
      }
    }
    PrintNothing(nodes[|nodes|..], first);
    AssocTwice(start, Opening(name), PrintNodes(nodes, true), "}");
    sb.Append("}");
  }

  /** `records_to_json`: the `record` elements among the siblings, as an array of objects. */
  method RecordsToJson(nodes: seq<Xml>, sb: StringBuffer)
    modifies sb
    ensures sb.str == old(sb.str) + PrintRecordArray(nodes)
  {
    hide Json;
    ghost var start := sb.str;
    var first := true;
    sb.Append("\"records\": [");
    ghost var head := sb.str;
    for i := 0 to |nodes|
      invariant sb.str + PrintRecords(nodes[i..], first) == head + PrintRecords(nodes, true)
    {
      assert nodes[i..][1..] == nodes[i + 1..];
      var cur := nodes[i];
      ghost var was := sb.str;
      if cur.Element? {
        if cur.name == "record" {
          ghost var comma := if first then "" else ",";
          if !first {
            sb.Append(",");
          } else {
            first := false;
          }
          ToJson(None, cur.children, sb);
          AssocTwice(was, comma, Json(None, cur.children), PrintRecords(nodes[i + 1..], false));
        }
      }
    }
    AssocTwice(start, "\"records\": [", PrintRecords(nodes, true), "]");
    sb.Append("]");
  }

  /** `parse_xml` from the children of the root element on. An empty buffer is the source's `NULL`. */
  method ReportToJson(nodes: seq<Xml>, sb: StringBuffer)
    requires sb.str == []
    modifies sb
    ensures sb.str == PrintReport(nodes)
  {
    hide Json, PrintRecordArray;
    for i := 0 to |nodes|
      invariant sb.str + PrintSections(nodes[i..], sb.str != []) == PrintSections(nodes, false)
    {
      assert nodes[i..][1..] == nodes[i + 1..];
      ghost var was, rest := sb.str, PrintSections(nodes[i + 1..], true);
      var cur := nodes[i];
      if cur.Element? {
        if cur.name == "report_metadata" {
          ToJson(Some("metadata"), cur.children, sb);
          AssocTwice(was, "", Json(Some("metadata"), cur.children), rest);
        } else if cur.name == "policy_published" {
          ghost var comma := if was != [] then "," else "";
          if sb.str != [] {
            sb.Append(",");
          }
          ToJson(Some("policy"), cur.children, sb);
          AssocTwice(was, comma, Json(Some("policy"), cur.children), rest);
        }
      }
    }
    if sb.str != [] {
      sb.Append(",");
    }
    RecordsToJson(nodes, sb);
  }
}
