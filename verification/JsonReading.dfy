/**
 A reader of JSON texts as RFC 8259 writes them, without white space and with members in ascending
 order of their keys, and the proof that it reads every canonical text back as the value it was made of.
 */
module JsonReading {
  import opened Wrappers
  import opened Collections
  import opened Text
  import opened Json

  // ---- strings, section 7 of RFC 8259 --------------------------------------

  function HexValue(c: char): Option<nat> {
    if '0' <= c <= '9' then Some(c as int - '0' as int)
    else if 'a' <= c <= 'f' then Some(c as int - 'a' as int + 10)
    else if 'A' <= c <= 'F' then Some(c as int - 'A' as int + 10)
    else None
  }

  /** Four hexadecimal digits; surrogates are not characters. */
  function ReadHex(s: string): Option<char>
    requires |s| == 4
  {
    if HexValue(s[0]).Some? && HexValue(s[1]).Some? && HexValue(s[2]).Some? && HexValue(s[3]).Some? then
      var v := HexValue(s[0]).value * 4096 + HexValue(s[1]).value * 256 + HexValue(s[2]).value * 16 + HexValue(s[3]).value;
      if v < 0xD800 || 0xE000 <= v < 0x10000 then Some(v as char) else None
    else None
  }

  /** What follows a backslash, and how many characters it takes. */
  function ReadEscape(s: string): (r: Option<(char, nat)>)
    ensures r.Some? ==> 0 < r.value.1 <= |s|
  {
    if s == [] then None
    else if s[0] == '"' || s[0] == '\\' || s[0] == '/' then Some((s[0], 1))
    else if s[0] == 'b' then Some((0x08 as char, 1))
    else if s[0] == 'f' then Some((0x0C as char, 1))
    else if s[0] == 'n' then Some((0x0A as char, 1))
    else if s[0] == 'r' then Some((0x0D as char, 1))
    else if s[0] == 't' then Some((0x09 as char, 1))
    else if s[0] == 'u' && |s| >= 5 && ReadHex(s[1..5]).Some? then Some((ReadHex(s[1..5]).value, 5))
    else None
  }

  /** The characters up to the closing quote, and what follows it. */
  function ReadString(s: string): (r: Option<(string, string)>)
    ensures r.Some? ==> |r.value.1| < |s|
    decreases |s|
  {
    if s == [] then None
    else if s[0] == '"' then Some(("", s[1..]))
    else if s[0] == '\\' then
      match ReadEscape(s[1..])
      case None => None
      case Some((c, n)) =>
        match ReadString(s[1 + n..])
        case None => None
        case Some((text, rest)) => Some(([c] + text, rest))
    else if s[0] as int < 0x20 then None
    else
      match ReadString(s[1..])
      case None => None
      case Some((text, rest)) => Some(([s[0]] + text, rest))
  }

  // ---- values --------------------------------------------------------------

  function NumeralLength(s: string): (n: nat)
    ensures n <= |s| && forall i :: 0 <= i < n ==> IsNumeralChar(s[i])
  {
    if s != [] && IsNumeralChar(s[0]) then 1 + NumeralLength(s[1..]) else 0
  }

  /** A value and what follows it. */
  ghost function ReadValue(s: string): (r: Option<(Json, string)>)
    ensures r.Some? ==> |r.value.1| < |s|
    decreases |s|, 1
  {
    if s == [] then None
    else if s[0] == '"' then
      match ReadString(s[1..])
      case None => None
      case Some((text, rest)) => Some((Str(text), rest))
    else if s[0] == '[' then
      match ReadItems(s[1..], true)
      case None => None
      case Some((items, rest)) => Some((Array(items), rest))
    else if s[0] == '{' then
      match ReadMembers(s[1..], None)
      case None => None
      case Some((fields, rest)) => Some((Object(fields), rest))
    else if |s| >= 4 && s[..4] == "null" then Some((Null, s[4..]))
    else if |s| >= 4 && s[..4] == "true" then Some((Bool(true), s[4..]))
    else if |s| >= 5 && s[..5] == "false" then Some((Bool(false), s[5..]))
    else
      var n := NumeralLength(s);
      if n == 0 then None else Some((Number(s[..n]), s[n..]))
  }

  /** The items up to the closing bracket, a comma before all but the first. */
  ghost function ReadItems(s: string, first: bool): (r: Option<(seq<Json>, string)>)
    ensures r.Some? ==> |r.value.1| < |s|
    decreases |s|, 2
  {
    if s == [] then None
    else if s[0] == ']' then Some(([], s[1..]))
    else if !first && s[0] != ',' then None
    else
      match ReadValue(if first then s else s[1..])
      case None => None
      case Some((v, rest)) =>
        match ReadItems(rest, false)
        case None => None
        case Some((items, after)) => Some(([v] + items, after))
  }

  /** The key stands above the last one: by the first character in which they differ. */
  ghost predicate Above(key: string, last: Option<string>) {
    last.Some? ==> exists k :: FirstDiffersBelow(last.value, key, k)
  }

  /** The members up to the closing brace, each above the last, and none of them null. */
  ghost function ReadMembers(s: string, last: Option<string>): (r: Option<(map<string, Json>, string)>)
    ensures r.Some? ==> |r.value.1| < |s|
    decreases |s|, 2
  {
    if s == [] then None
    else if s[0] == '}' then Some((map[], s[1..]))
    else if last.Some? && s[0] != ',' then None
    else ReadMember(if last.None? then s else s[1..], last)
  }

  ghost function ReadMember(s: string, last: Option<string>): (r: Option<(map<string, Json>, string)>)
    ensures r.Some? ==> |r.value.1| < |s|
    decreases |s|, 1
  {
    if s == [] || s[0] != '"' then None
    else
      match ReadString(s[1..])
      case None => None
      case Some((key, rest)) =>
        if rest == [] || rest[0] != ':' || !Above(key, last) then None
        else
          match ReadValue(rest[1..])
          case None => None
          case Some((v, more)) =>
            if v == Null then None
            else
              match ReadMembers(more, Some(key))
              case None => None
              case Some((fields, after)) => Some((fields[key := v], after))
  }

  // ---- strings read back ---------------------------------------------------

  lemma HexReadsBack(n: nat)
    requires n < 16
    ensures HexValue(HexDigit(n)) == Some(n)
  {
  }

  lemma EscapeReadsBack(c: char, rest: string)
    ensures var s := Escape(c) + rest;
            if c == '"' || c == '\\' || c as int < 0x20
            then s[0] == '\\' && ReadEscape(s[1..]) == Some((c, |Escape(c)| - 1)) && s[|Escape(c)|..] == rest
            else s == [c] + rest
  {
    var e := Escape(c);
    var s := e + rest;
    if |e| == 6 {
      HexReadsBack(c as int / 16);
      HexReadsBack(c as int % 16);
      var hex := s[1..][1..5];
      assert hex[0] == e[2] == '0' && hex[1] == e[3] == '0' && hex[2] == e[4] && hex[3] == e[5];
    }
  }

  /**
   The two-character escapes are used where there are any, other control characters are in lower-case
   digits, and the rest stand for themselves.
   */
  lemma EscapesAreShort(c: char)
    ensures var n, e := c as int, Escape(c);
            && (|e| == 1 <==> n >= 0x20 && c != '"' && c != '\\')
            && (|e| == 2 <==> c == '"' || c == '\\' || n == 0x08 || n == 0x09 || n == 0x0A || n == 0x0C || n == 0x0D)
            && (|e| != 1 && |e| != 2 ==> |e| == 6 && forall i :: 0 <= i < 6 ==> !('A' <= e[i] <= 'F'))
  {
  }

  lemma {:induction false} StringReadsBack(s: string, rest: string)
    ensures ReadString(QuoteRest(s) + rest) == Some((s, rest))
  {
    if s == [] {
      assert (QuoteRest(s) + rest)[1..] == rest;
    } else {
      var more := QuoteRest(s[1..]) + rest;
      Regroup(Escape(s[0]), QuoteRest(s[1..]), rest);
      EscapeReadsBack(s[0], more);
      StringReadsBack(s[1..], rest);
      FirstAndRest(s);
    }
  }

  // ---- values read back ----------------------------------------------------

  /** A number, if one comes before, has ended. */
  predicate NumberEnds(rest: string) {
    rest == [] || !IsNumeralChar(rest[0])
  }

  lemma {:induction false} NumeralIsWhole(s: string, rest: string)
    requires NumberEnds(rest) && forall i :: 0 <= i < |s| ==> IsNumeralChar(s[i])
    ensures NumeralLength(s + rest) == |s|
  {
    if s == [] {
      assert s + rest == rest;
    } else {
      NumeralIsWhole(s[1..], rest);
      assert (s + rest)[1..] == s[1..] + rest;
    }
  }

  lemma WordReadsBack(word: string, rest: string, j: Json)
    requires (word == "null" && j == Null) || (word == "true" && j == Bool(true)) || (word == "false" && j == Bool(false))
    ensures ReadValue(word + rest) == Some((j, rest))
  {
    var s := word + rest;
    assert s[|word|..] == rest && s[..|word|] == word && s[0] == word[0];
    assert s[0] == 'f' ==> s[..4][0] == 'f';
  }

  lemma NumberReadsBack(n: Numeral, rest: string)
    requires NumberEnds(rest)
    ensures ReadValue(n + rest) == Some((Number(n), rest))
  {
    var s := n + rest;
    NumeralIsWhole(n, rest);
    assert s[|n|..] == rest && s[..|n|] == n && IsNumeralChar(s[0]);
    assert |s| >= 4 ==> s[..4][0] == s[0];
    assert |s| >= 5 ==> s[..5][0] == s[0];
  }

  lemma QuotedReadsBack(x: string, rest: string)
    ensures ReadValue(Quote(x) + rest) == Some((Str(x), rest))
  {
    var s := Quote(x) + rest;
    StringReadsBack(x, rest);
    assert s[0] == '"' && s[1..] == QuoteRest(x) + rest;
  }

  lemma ScalarReadsBack(j: Json, rest: string)
    requires NumberEnds(rest) && !j.Array? && !j.Object?
    ensures ReadValue(Canonical(j) + rest) == Some((j, rest))
  {
    match j
    case Null => WordReadsBack("null", rest, j);
    case Bool(b) => WordReadsBack(if b then "true" else "false", rest, j);
    case Number(n) => NumberReadsBack(n, rest);
    case Str(x) => QuotedReadsBack(x, rest);
  }

  lemma ArrayOpens(body: string, items: seq<Json>, rest: string)
    requires ReadItems(body, true) == Some((items, rest))
    ensures ReadValue("[" + body) == Some((Array(items), rest))
  {
    assert ("[" + body)[1..] == body;
  }

  lemma ObjectOpens(body: string, fields: map<string, Json>, rest: string)
    requires ReadMembers(body, None) == Some((fields, rest))
    ensures ReadValue("{" + body) == Some((Object(fields), rest))
  {
    assert ("{" + body)[1..] == body;
  }

  lemma OneItem(items: seq<Tree>, first: bool, rest: string, v: Json, vs: seq<Json>)
    requires items != [] && forall i :: 0 <= i < |items| ==> Sound(items[i])
    requires var more := PrintItems(items[1..], false) + rest;
             ReadValue(Print(items[0]) + more) == Some((v, more)) && ReadItems(more, false) == Some((vs, rest))
    ensures ReadItems(PrintItems(items, first) + rest, first) == Some(([v] + vs, rest))
  {
    ItemsStart(items, first, rest);
    var s := PrintItems(items, first) + rest;
    assert !first ==> s[0] == ',';
    assert first ==> s[0..] == s;
  }

  /** The text of a member and of what follows it. */
  ghost function MemberText(m: Member, more: string): string {
    "\"" + (QuoteRest(m.key) + (":" + (Print(m.value) + more)))
  }

  lemma MemberIsRead(m: Member, more: string, last: Option<string>, rest: string, v: Json, fields: map<string, Json>)
    requires Above(m.key, last) && v != Null
    requires ReadValue(Print(m.value) + more) == Some((v, more)) && ReadMembers(more, Some(m.key)) == Some((fields, rest))
    ensures ReadMember(MemberText(m, more), last) == Some((fields[m.key := v], rest))
  {
    var after := ":" + (Print(m.value) + more);
    var s := "\"" + (QuoteRest(m.key) + after);
    StringReadsBack(m.key, after);
    assert s[1..] == QuoteRest(m.key) + after && after[1..] == Print(m.value) + more;
  }

  lemma MembersSpell(members: seq<Member>, first: bool, rest: string)
    requires members != []
    ensures PrintMembers(members, first) + rest
         == (if first then "" else ",") + MemberText(members[0], PrintMembers(members[1..], false) + rest)
  {
    var m, more := members[0], PrintMembers(members[1..], false);
    var tail := ":" + (Print(m.value) + more);
    Regroup(if first then "" else ",", Quote(m.key) + tail, rest);
    Regroup(Quote(m.key), tail, rest);
    Regroup("\"", QuoteRest(m.key), tail + rest);
    Regroup(":", Print(m.value) + more, rest);
    Regroup(Print(m.value), more, rest);
  }

  lemma OneMember(
    members: seq<Member>, last: Option<string>, rest: string, v: Json, fields: map<string, Json>)
    requires members != [] && Above(members[0].key, last) && v != Null
    requires var more := PrintMembers(members[1..], false) + rest;
             && ReadValue(Print(members[0].value) + more) == Some((v, more))
             && ReadMembers(more, Some(members[0].key)) == Some((fields, rest))
    ensures ReadMembers(PrintMembers(members, last.None?) + rest, last) == Some((fields[members[0].key := v], rest))
  {
    var more := PrintMembers(members[1..], false) + rest;
    var s, member := PrintMembers(members, last.None?) + rest, MemberText(members[0], more);
    MembersSpell(members, last.None?, rest);
    MemberIsRead(members[0], more, last, rest, v, fields);
    MemberFollows(s, member, last);
  }

  lemma MemberFollows(s: string, member: string, last: Option<string>)
    requires s == (if last.None? then "" else ",") + member && member != [] && member[0] == '"'
    ensures ReadMembers(s, last) == ReadMember(member, last)
  {
    assert last.Some? ==> s[1..] == member;
    assert last.None? ==> s == member;
  }

  /** Every canonical text, whatever follows it, is read as its value without null members. */
  lemma {:induction false} CanonicalReadsBack(j: Json, rest: string)
    requires NumberEnds(rest)
    ensures ReadValue(Canonical(j) + rest) == Some((Strip(j), rest))
    decreases j, 2, 0
  {
    if j.Array? {
      ItemsReadBack(j, 0, rest);
      var items := Canon(j).items;
      assert items[0..] == items && StrippedFrom(j, 0) == Strip(j).items;
      ArrayOpens(PrintItems(items, true) + rest, Strip(j).items, rest);
      Regroup("[", PrintItems(items, true), rest);
    } else if j.Object? {
      MembersReadBack(j, 0, rest);
      var members := Canon(j).members;
      AllFields(j);
      assert members[0..] == members;
      ObjectOpens(PrintMembers(members, true) + rest, Strip(j).fields, rest);
      Regroup("{", PrintMembers(members, true), rest);
    } else {
      ScalarReadsBack(j, rest);
    }
  }

  /** The items from the `i`-th on, without null members. */
  ghost function StrippedFrom(j: Json, i: nat): seq<Json>
    requires j.Array? && i <= |j.items|
  {
    seq(|j.items| - i, n requires 0 <= n < |j.items| - i => Strip(j.items[i + n]))
  }

  lemma {:induction false} ItemsReadBack(j: Json, i: nat, rest: string)
    requires j.Array? && i <= |j.items|
    ensures |Canon(j).items| == |j.items|
    ensures ReadItems(PrintItems(Canon(j).items[i..], i == 0) + rest, i == 0) == Some((StrippedFrom(j, i), rest))
    decreases j, 1, |j.items| - i
  {
    var items := Canon(j).items;
    if i < |items| {
      var from := items[i..];
      ItemsSplit(j, i);
      ItemsContinue(from[1..], rest);
      CanonicalReadsBack(j.items[i], PrintItems(from[1..], false) + rest);
      ItemsReadBack(j, i + 1, rest);
      OneItem(from, i == 0, rest, Strip(j.items[i]), StrippedFrom(j, i + 1));
    } else {
      assert items[i..] == [] && StrippedFrom(j, i) == [] && ("]" + rest)[1..] == rest;
    }
  }

  lemma ItemsSplit(j: Json, i: nat)
    requires j.Array? && i < |j.items|
    ensures |Canon(j).items| == |j.items|
    ensures var from := Canon(j).items[i..];
            && from != [] && from[0] == Canon(j.items[i]) && from[1..] == Canon(j).items[i + 1..]
            && forall k :: 0 <= k < |from| ==> Sound(from[k])
    ensures StrippedFrom(j, i) == [Strip(j.items[i])] + StrippedFrom(j, i + 1)
  {
    CanonIsSound(j);
    var from := Canon(j).items[i..];
    forall k | 0 <= k < |from| ensures Sound(from[k]) {
      assert from[k] == Canon(j).items[i + k];
    }
  }

  /** The keys of an object, in order. */
  ghost function Keys(j: Json): seq<string>
    requires j.Object?
  {
    SortedKeys(NonNull(j.fields))
  }

  /** The members from the `i`-th key on. */
  ghost function FieldsFrom(j: Json, i: nat): map<string, Json>
    requires j.Object? && i <= |Keys(j)|
  {
    map k | k in NonNull(j.fields) && k in Keys(j)[i..] :: Strip(j.fields[k])
  }

  ghost function Last(j: Json, i: nat): Option<string>
    requires j.Object? && i <= |Keys(j)|
  {
    if i == 0 then None else Some(Keys(j)[i - 1])
  }

  lemma {:induction false} MembersReadBack(j: Json, i: nat, rest: string)
    requires j.Object? && i <= |Keys(j)|
    ensures |Canon(j).members| == |Keys(j)|
    ensures ReadMembers(PrintMembers(Canon(j).members[i..], i == 0) + rest, Last(j, i)) == Some((FieldsFrom(j, i), rest))
    decreases j, 1, |Keys(j)| - i
  {
    var members := Canon(j).members;
    if i < |members| {
      var key, from := Keys(j)[i], members[i..];
      FieldsSplit(j, i);
      assert from[0] == Member(key, Canon(j.fields[key])) && from[1..] == members[i + 1..];
      MembersContinue(members[i + 1..], rest);
      CanonicalReadsBack(j.fields[key], PrintMembers(members[i + 1..], false) + rest);
      MembersReadBack(j, i + 1, rest);
      KeysAscend(j, i);
      OneMember(from, Last(j, i), rest, Strip(j.fields[key]), FieldsFrom(j, i + 1));
    } else {
      assert members[i..] == [] && ("}" + rest)[1..] == rest;
      assert FieldsFrom(j, i) == map[];
    }
  }

  lemma KeysAscend(j: Json, i: nat)
    requires j.Object? && i < |Keys(j)|
    ensures Above(Keys(j)[i], Last(j, i))
  {
    if i > 0 {
      StringLessWhen(Keys(j)[i - 1], Keys(j)[i]);
    }
  }

  lemma FieldsSplit(j: Json, i: nat)
    requires j.Object? && i < |Keys(j)|
    ensures Keys(j)[i] in NonNull(j.fields) && Strip(j.fields[Keys(j)[i]]) != Null
    ensures FieldsFrom(j, i) == FieldsFrom(j, i + 1)[Keys(j)[i] := Strip(j.fields[Keys(j)[i]])]
  {
    var keys := Keys(j);
    assert keys[i] in keys && keys[i..] == [keys[i]] + keys[i + 1..];
  }

  lemma AllFields(j: Json)
    requires j.Object?
    ensures FieldsFrom(j, 0) == Strip(j).fields
  {
    assert Keys(j)[0..] == Keys(j);
  }
}
