/** A reader for compact JSON text with integers (RFC 8259, sections 2 to 7).
    It knows nothing of the writers; it is the independent definition of what
    a canonical text says. */
module JsonReader {
  import opened Prelude
  import opened Json

  // ---- Numbers -------------------------------------------------------------

  predicate IsDigit(c: char) {
    '0' <= c <= '9'
  }

  predicate AllDigits(s: string) {
    forall i :: 0 <= i < |s| ==> IsDigit(s[i])
  }

  /** The length of the run of digits at the front. */
  function DigitRun(s: string): (n: nat)
    ensures n <= |s|
    ensures forall i :: 0 <= i < n ==> IsDigit(s[i])
    ensures n < |s| ==> !IsDigit(s[n])
  {
    if s == "" || !IsDigit(s[0]) then 0 else 1 + DigitRun(s[1..])
  }

  function ValueOf(s: string): nat
    requires AllDigits(s)
  {
    if s == [] then 0 else 10 * ValueOf(s[..|s| - 1]) + (s[|s| - 1] as nat - '0' as nat)
  }

  /** A run of digits without a leading zero. */
  function ReadNatural(s: string): (r: Option<(nat, string)>)
    ensures r.Some? ==> |r.value.1| < |s|
  {
    var n := DigitRun(s);
    if n == 0 || (n > 1 && s[0] == '0') then None else Some((ValueOf(s[..n]), s[n..]))
  }

  function ReadNumber(s: string): (r: Option<(int, string)>)
    ensures r.Some? ==> |r.value.1| < |s|
  {
    var minus := s != "" && s[0] == '-';
    var p := ReadNatural(if minus then s[1..] else s);
    if p.None? then None
    else
      var n: int := p.value.0;
      Some((if minus then -n else n, p.value.1))
  }

  // ---- Strings -------------------------------------------------------------

  predicate IsHex(c: char) {
    IsDigit(c) || 'a' <= c <= 'f' || 'A' <= c <= 'F'
  }

  function HexValue(c: char): (n: nat)
    requires IsHex(c)
    ensures n < 16
  {
    if IsDigit(c) then c as nat - 48 else if 'a' <= c <= 'f' then c as nat - 87 else c as nat - 55
  }

  /** One `\u` escape: a UTF-16 code unit. */
  function ReadUnit(s: string): (r: Option<(nat, string)>)
    ensures r.Some? ==> |r.value.1| < |s| && r.value.0 < 0x10000
  {
    if |s| >= 6 && s[0] == '\\' && s[1] == 'u' && IsHex(s[2]) && IsHex(s[3]) && IsHex(s[4]) && IsHex(s[5]) then
      Some((HexValue(s[2]) * 4096 + HexValue(s[3]) * 256 + HexValue(s[4]) * 16 + HexValue(s[5]), s[6..]))
    else None
  }

  /** A character written as one code unit, or as a surrogate pair. */
  function ReadUnits(s: string): (r: Option<(char, string)>)
    ensures r.Some? ==> |r.value.1| < |s|
  {
    var u := ReadUnit(s);
    if u.None? || 0xDC00 <= u.value.0 < 0xE000 then None
    else if u.value.0 < 0xD800 || u.value.0 >= 0xE000 then Some((u.value.0 as char, u.value.1))
    else
      var v := ReadUnit(u.value.1);
      if v.None? || !(0xDC00 <= v.value.0 < 0xE000) then None
      else Some(((0x10000 + (u.value.0 - 0xD800) * 0x400 + (v.value.0 - 0xDC00)) as char, v.value.1))
  }

  /** One character of a string literal: itself, or what its escape stands for. */
  function ReadChar(s: string): (r: Option<(char, string)>)
    ensures r.Some? ==> |r.value.1| < |s|
  {
    if s == "" || s[0] as nat < 0x20 || s[0] == '\"' then None
    else if s[0] != '\\' then Some((s[0], s[1..]))
    else if |s| == 1 then None
    else if s[1] == 'u' then ReadUnits(s)
    else if s[1] == '\"' || s[1] == '\\' || s[1] == '/' then Some((s[1], s[2..]))
    else if s[1] == 'b' then Some(('\U{0008}', s[2..]))
    else if s[1] == 't' then Some(('\t', s[2..]))
    else if s[1] == 'n' then Some(('\n', s[2..]))
    else if s[1] == 'f' then Some(('\U{000C}', s[2..]))
    else if s[1] == 'r' then Some(('\r', s[2..]))
    else None
  }

  /** A string literal from just after its opening quote. */
  function ReadBody(s: string): (r: Option<(string, string)>)
    ensures r.Some? ==> |r.value.1| < |s|
    decreases |s|
  {
    if s != "" && s[0] == '\"' then Some(("", s[1..]))
    else
      var c := ReadChar(s);
      if c.None? then None
      else
        var rest := ReadBody(c.value.1);
        if rest.None? then None else Some(([c.value.0] + rest.value.0, rest.value.1))
  }

  function ReadString(s: string): (r: Option<(string, string)>)
    ensures r.Some? ==> |r.value.1| < |s|
  {
    if s != "" && s[0] == '\"' then ReadBody(s[1..]) else None
  }

  // ---- Values --------------------------------------------------------------

  function ReadKeyword(s: string): (r: Option<(Json, string)>)
    ensures r.Some? ==> |r.value.1| < |s|
  {
    if StartsWith(s, "null") then Some((Null, s[4..]))
    else if StartsWith(s, "true") then Some((Bool(true), s[4..]))
    else if StartsWith(s, "false") then Some((Bool(false), s[5..]))
    else None
  }

  /** One value at the front of a text, and the text behind it. */
  function ReadValue(s: string): (r: Option<(Json, string)>)
    ensures r.Some? ==> |r.value.1| < |s|
    decreases |s|, 0
  {
    if s == "" then None
    else if s[0] == '\"' then
      var p := ReadString(s);
      if p.None? then None else Some((Str(p.value.0), p.value.1))
    else if s[0] == '[' then
      var p := ReadItems(s[1..], true);
      if p.None? then None else Some((Arr(p.value.0), p.value.1))
    else if s[0] == '{' then
      var p := ReadEntries(s[1..], true);
      if p.None? then None else Some((Obj(p.value.0), p.value.1))
    else if s[0] == '-' || IsDigit(s[0]) then
      var p := ReadNumber(s);
      if p.None? then None else Some((Num(p.value.0), p.value.1))
    else ReadKeyword(s)
  }

  /** Elements up to the closing bracket; all but the first follow a comma. */
  function ReadItems(s: string, first: bool): (r: Option<(seq<Json>, string)>)
    ensures r.Some? ==> |r.value.1| < |s|
    decreases |s|, 1
  {
    if s == "" then None
    else if s[0] == ']' then Some(([], s[1..]))
    else if !first && s[0] != ',' then None
    else
      var head := ReadValue(if first then s else s[1..]);
      if head.None? then None
      else
        var rest := ReadItems(head.value.1, false);
        if rest.None? then None else Some(([head.value.0] + rest.value.0, rest.value.1))
  }

  /** A key, its colon and its value. */
  function ReadMember(s: string): (r: Option<(Entry, string)>)
    ensures r.Some? ==> |r.value.1| < |s|
    decreases |s|, 1
  {
    var key := ReadString(s);
    if key.None? || key.value.1 == "" || key.value.1[0] != ':' then None
    else
      var value := ReadValue(key.value.1[1..]);
      if value.None? then None else Some((Entry(key.value.0, value.value.0), value.value.1))
  }

  function ReadEntries(s: string, first: bool): (r: Option<(seq<Entry>, string)>)
    ensures r.Some? ==> |r.value.1| < |s|
    decreases |s|, 2
  {
    if s == "" then None
    else if s[0] == '}' then Some(([], s[1..]))
    else if !first && s[0] != ',' then None
    else
      var head := ReadMember(if first then s else s[1..]);
      if head.None? then None
      else
        var rest := ReadEntries(head.value.1, false);
        if rest.None? then None else Some(([head.value.0] + rest.value.0, rest.value.1))
  }
}
