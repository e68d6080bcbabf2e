/** Reading JSON text back, by the grammar of RFC 8259 for strings, objects and arrays. */
module JsonReader {
  datatype Json = JString(text: string) | JObject(members: seq<Member>) | JArray(items: seq<Json>)
  datatype Member = Member(name: string, value: Json)

  /** What was read and the index after it. */
  datatype Read<+T> = Fail | Got(value: T, next: nat)

  /** The whitespace of section 2. */
  predicate IsSpace(c: char) {
    c == ' ' || c == '\t' || c == '\n' || c == '\r'
  }

  function Skip(s: string, i: nat): (j: nat)
    requires i <= |s|
    ensures i <= j <= |s|
    decreases |s| - i
  {
    if i < |s| && IsSpace(s[i]) then Skip(s, i + 1) else i
  }

  /** The two-character escapes of section 7; `\u` is not read. */
  function Unescape(c: char): Read<char> {
    if c == '"' || c == '\\' || c == '/' then Got(c, 1)
    else if c == 'b' then Got(8 as char, 1)
    else if c == 'f' then Got(12 as char, 1)
    else if c == 'n' then Got('\n', 1)
    else if c == 'r' then Got('\r', 1)
    else if c == 't' then Got('\t', 1)
    else Fail
  }

  /** The rest of a string, up to and including its closing quote. Control characters have to be
      escaped. */
  function Chars(s: string, i: nat): (r: Read<string>)
    requires i <= |s|
    ensures r.Got? ==> i < r.next <= |s|
    decreases |s| - i
  {
    if i == |s| || s[i] < ' ' then Fail
    else if s[i] == '"' then Got("", i + 1)
    else if s[i] != '\\' then Behind(s[i], Chars(s, i + 1))
    else if i + 1 < |s| && Unescape(s[i + 1]).Got? then Behind(Unescape(s[i + 1]).value, Chars(s, i + 2))
    else Fail
  }

  function Behind(c: char, r: Read<string>): Read<string> {
    if r.Got? then Got([c] + r.value, r.next) else Fail
  }

  function ReadValue(s: string, i: nat): (r: Read<Json>)
    requires i <= |s|
    ensures r.Got? ==> i < r.next <= |s|
    decreases |s| - i, 0
  {
    if i == |s| then Fail
    else if s[i] == '"' then
      var t := Chars(s, i + 1);
      if t.Got? then Got(JString(t.value), t.next) else Fail
    else if s[i] == '{' then
      var j := Skip(s, i + 1);
      var r := if j < |s| && s[j] == '}' then Got([], j + 1) else ReadMembers(s, j);
      if r.Got? then Got(JObject(r.value), r.next) else Fail
    else if s[i] == '[' then
      var j := Skip(s, i + 1);
      var r := if j < |s| && s[j] == ']' then Got([], j + 1) else ReadItems(s, j);
      if r.Got? then Got(JArray(r.value), r.next) else Fail
    else Fail
  }

  function ReadMember(s: string, i: nat): (r: Read<Member>)
    requires i <= |s|
    ensures r.Got? ==> i < r.next <= |s|
    decreases |s| - i, 0
  {
    if i == |s| || s[i] != '"' then Fail else
    var name := Chars(s, i + 1);
    if name.Fail? then Fail else
    var j := Skip(s, name.next);
    if j == |s| || s[j] != ':' then Fail else
    var value := ReadValue(s, Skip(s, j + 1));
    if value.Got? then Got(Member(name.value, value.value), value.next) else Fail
  }

  /** One or more members and the closing brace. */
  function ReadMembers(s: string, i: nat): (r: Read<seq<Member>>)
    requires i <= |s|
    ensures r.Got? ==> i < r.next <= |s|
    decreases |s| - i, 1
  {
    var m := ReadMember(s, i);
    if m.Fail? then Fail else
    var more := MoreMembers(s, m.next);
    if more.Got? then Got([m.value] + more.value, more.next) else Fail
  }

  function MoreMembers(s: string, i: nat): (r: Read<seq<Member>>)
    requires i <= |s|
    ensures r.Got? ==> i < r.next <= |s|
    decreases |s| - i, 2
  {
    var j := Skip(s, i);
    if j == |s| then Fail
    else if s[j] == '}' then Got([], j + 1)
    else if s[j] == ',' then ReadMembers(s, Skip(s, j + 1))
    else Fail
  }

  /** One or more values and the closing bracket. */
  function ReadItems(s: string, i: nat): (r: Read<seq<Json>>)
    requires i <= |s|
    ensures r.Got? ==> i < r.next <= |s|
    decreases |s| - i, 1
  {
    var v := ReadValue(s, i);
    if v.Fail? then Fail else
    var more := MoreItems(s, v.next);
    if more.Got? then Got([v.value] + more.value, more.next) else Fail
  }

  function MoreItems(s: string, i: nat): (r: Read<seq<Json>>)
    requires i <= |s|
    ensures r.Got? ==> i < r.next <= |s|
    decreases |s| - i, 2
  {
    var j := Skip(s, i);
    if j == |s| then Fail
    else if s[j] == ']' then Got([], j + 1)
    else if s[j] == ',' then ReadItems(s, Skip(s, j + 1))
    else Fail
  }

  /** `s` is the JSON text of `v`, and of nothing else. */
  predicate Denotes(s: string, v: Json) {
    var r := ReadValue(s, Skip(s, 0));
    r.Got? && r.value == v && Skip(s, r.next) == |s|
  }
}
