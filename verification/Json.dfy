/**
 JSON values and the canonical printer of signed announce bodies. Printing goes through a tree of
 sorted members; the main result says exactly which values print alike.
 */
module Json {
  import opened Wrappers
  import opened Collections
  import opened Text

  predicate IsNumeralChar(c: char) {
    IsAsciiDigit(c) || c in {'+', '-', '.', 'e', 'E'}
  }

  predicate IsNumeral(s: string) {
    s != [] && forall i :: 0 <= i < |s| ==> IsNumeralChar(s[i])
  }

  /** The text of a number, of the characters serde_json prints numbers with. */
  type Numeral = s: string | IsNumeral(s) witness "0"

  datatype Json =
    | Null
    | Bool(b: bool)
    | Number(text: Numeral)
    | Str(s: string)
    | Array(items: seq<Json>)
    | Object(fields: map<string, Json>)

  // ---- integers ------------------------------------------------------------

  const U64_MAX := 0xFFFF_FFFF_FFFF_FFFF

  /** `Value::as_u64`: integers only; a float always prints with a point or an exponent. */
  function AsU64(j: Json): Option<nat> {
    if j.Number? && AllDigits(j.text) && DigitsValue(j.text) <= U64_MAX
    then Some(DigitsValue(j.text))
    else None
  }

  // ---- sorted keys ---------------------------------------------------------

  ghost predicate Sorted(keys: seq<string>) {
    forall i, j :: 0 <= i < j < |keys| ==> StringLess(keys[i], keys[j])
  }

  predicate IsLeast(k: string, s: set<string>) {
    k in s && forall x :: x in s ==> x == k || StringLess(k, x)
  }

  lemma OneLeast(s: set<string>)
    requires s != {}
    ensures exists k :: IsLeast(k, s)
    ensures forall a, b :: IsLeast(a, s) && IsLeast(b, s) ==> a == b
  {
    var k := LeastString(s);
    assert IsLeast(k, s);
    forall a, b | IsLeast(a, s) && IsLeast(b, s) ensures a == b {
      StringLessTotal(a, b);
    }
  }

  function SortedKeys(s: set<string>): (keys: seq<string>)
    ensures Sorted(keys) && forall k :: k in keys <==> k in s
  {
    if s == {} then []
    else
      OneLeast(s);
      var k :| IsLeast(k, s);
      [k] + SortedKeys(s - {k})
  }

  // ---- the canonical tree --------------------------------------------------

  datatype Tree =
    | Word(text: string)
    | Quoted(s: string)
    | List(items: seq<Tree>)
    | Record(members: seq<Member>)

  datatype Member = Member(key: string, value: Tree)

  function NonNull(fields: map<string, Json>): set<string> {
    set k | k in fields && !fields[k].Null?
  }

  /** Members sorted by key, null ones dropped. */
  function Canon(j: Json): Tree
    decreases j
  {
    match j
    case Null => Word("null")
    case Bool(b) => Word(if b then "true" else "false")
    case Number(text) => Word(text)
    case Str(s) => Quoted(s)
    case Array(items) => List(seq(|items|, i requires 0 <= i < |items| => Canon(items[i])))
    case Object(fields) =>
      var keys := SortedKeys(NonNull(fields));
      Record(seq(|keys|, i requires 0 <= i < |keys| => assert keys[i] in keys; Member(keys[i], Canon(fields[keys[i]]))))
  }

  // ---- printing ------------------------------------------------------------

  function HexDigit(n: nat): char
    requires n < 16
  {
    if n < 10 then '0' + n as char else 'a' + (n - 10) as char
  }

  /** serde_json's escapes: short ones, `\u00xx` for the other control characters, the rest verbatim. */
  function Escape(c: char): string {
    if c == '"' then "\\\""
    else if c == '\\' then "\\\\"
    else if c == 8 as char then "\\b"
    else if c == '\t' then "\\t"
    else if c == '\n' then "\\n"
    else if c == 12 as char then "\\f"
    else if c == '\r' then "\\r"
    else if c < ' ' then "\\u00" + [HexDigit(c as int / 16), HexDigit(c as int % 16)]
    else [c]
  }

  /** The escaped characters and the closing quote. */
  function QuoteRest(s: string): string {
    if s == [] then "\"" else Escape(s[0]) + QuoteRest(s[1..])
  }

  function Quote(s: string): string {
    "\"" + QuoteRest(s)
  }

  function Print(t: Tree): string
    decreases t, 2
  {
    match t
    case Word(text) => text
    case Quoted(s) => Quote(s)
    case List(items) => "[" + PrintItems(items, true)
    case Record(members) => "{" + PrintMembers(members, true)
  }

  /** The items, a comma before all but the first, and the closing bracket. */
  function PrintItems(items: seq<Tree>, first: bool): (r: string)
    ensures r != []
    decreases items, 1
  {
    if items == [] then "]"
    else (if first then "" else ",") + (Print(items[0]) + PrintItems(items[1..], false))
  }

  function PrintMembers(members: seq<Member>, first: bool): (r: string)
    ensures r != []
    decreases members, 1
  {
    if members == [] then "}"
    else
      (if first then "" else ",")
      + (Quote(members[0].key) + (":" + (Print(members[0].value) + PrintMembers(members[1..], false))))
  }

  function Canonical(j: Json): string {
    Print(Canon(j))
  }

  // ---- reading back --------------------------------------------------------

  /** Text that cannot continue a word. */
  predicate Ended(x: string) {
    x == [] || x[0] in {',', ']', '}'}
  }

  predicate IsWord(s: string) {
    s != [] && forall i :: 0 <= i < |s| ==> !(s[i] in {',', ']', '}', '"', '[', '{', ':'})
  }

  predicate Sound(t: Tree) {
    match t
    case Word(text) => IsWord(text)
    case Quoted(_) => true
    case List(items) => forall i :: 0 <= i < |items| ==> Sound(items[i])
    case Record(members) => forall i :: 0 <= i < |members| ==> Sound(members[i].value)
  }

  lemma {:induction false} WordsReadOnce(a: string, b: string, x: string, y: string)
    requires (a == [] || IsWord(a)) && (b == [] || IsWord(b)) && Ended(x) && Ended(y)
    requires a + x == b + y
    ensures a == b && x == y
  {
    assert a == [] ==> a + x == x;
    assert b == [] ==> b + y == y;
    assert a != [] ==> (a + x)[0] == a[0];
    assert b != [] ==> (b + y)[0] == b[0];
    if a != [] {
      assert (a + x)[1..] == a[1..] + x && (b + y)[1..] == b[1..] + y;
      WordsReadOnce(a[1..], b[1..], x, y);
      assert a == [a[0]] + a[1..] && b == [b[0]] + b[1..];
    }
  }

  lemma EscapesReadOnce(c: char, d: char, x: string, y: string)
    requires Escape(c) + x == Escape(d) + y
    ensures c == d && x == y
  {
    var e, f := Escape(c), Escape(d);
    assert (e + x)[0] == e[0] && (f + y)[0] == f[0];
    if e[0] == '\\' {
      assert (e + x)[1] == e[1] && (f + y)[1] == f[1];
      if e[1] == 'u' {
        assert (e + x)[4] == e[4] && (f + y)[4] == f[4];
        assert (e + x)[5] == e[5] && (f + y)[5] == f[5];
        assert e[4] == HexDigit(c as int / 16) && f[4] == HexDigit(d as int / 16);
        assert e[5] == HexDigit(c as int % 16) && f[5] == HexDigit(d as int % 16);
        HexReadsOnce(c as int / 16, d as int / 16);
        HexReadsOnce(c as int % 16, d as int % 16);
      }
    }
    assert c == d;
    assert (e + x)[|e|..] == x && (f + y)[|e|..] == y;
  }

  lemma HexReadsOnce(m: nat, n: nat)
    requires m < 16 && n < 16 && HexDigit(m) == HexDigit(n)
    ensures m == n
  {
  }

  lemma QuoteRestStart(s: string)
    ensures QuoteRest(s) != [] && (QuoteRest(s)[0] == '"' <==> s == [])
  {
    if s != [] {
      assert Escape(s[0]) != [] && Escape(s[0])[0] != '"';
    }
  }

  lemma {:induction false} QuotesReadOnce(a: string, b: string, x: string, y: string)
    requires QuoteRest(a) + x == QuoteRest(b) + y
    ensures a == b && x == y
  {
    QuoteRestStart(a);
    QuoteRestStart(b);
    assert (QuoteRest(a) + x)[0] == QuoteRest(a)[0] && (QuoteRest(b) + y)[0] == QuoteRest(b)[0];
    if a == [] {
      assert (QuoteRest(a) + x)[1..] == x && (QuoteRest(b) + y)[1..] == y;
    } else {
      Regroup(Escape(a[0]), QuoteRest(a[1..]), x);
      Regroup(Escape(b[0]), QuoteRest(b[1..]), y);
      EscapesReadOnce(a[0], b[0], QuoteRest(a[1..]) + x, QuoteRest(b[1..]) + y);
      QuotesReadOnce(a[1..], b[1..], x, y);
      assert a == [a[0]] + a[1..] && b == [b[0]] + b[1..];
    }
  }

  lemma PrintStart(t: Tree)
    requires Sound(t)
    ensures Print(t) != []
    ensures Print(t)[0] == '"' <==> t.Quoted?
    ensures Print(t)[0] == '[' <==> t.List?
    ensures Print(t)[0] == '{' <==> t.Record?
    ensures !(Print(t)[0] in {',', ']', '}'})
  {
  }

  /** Printed trees that start alike are of one kind. */
  lemma SameKind(a: Tree, b: Tree, x: string, y: string)
    requires Sound(a) && Sound(b) && Print(a) + x == Print(b) + y
    ensures a.Word? <==> b.Word?
    ensures a.Quoted? <==> b.Quoted?
    ensures a.List? <==> b.List?
  {
    PrintStart(a);
    PrintStart(b);
    assert (Print(a) + x)[0] == Print(a)[0] && (Print(b) + y)[0] == Print(b)[0];
  }

  lemma AfterTheFirst(c: char, s: string, t: string, x: string, y: string)
    requires ([c] + s) + x == ([c] + t) + y
    ensures s + x == t + y
  {
    assert (([c] + s) + x)[1..] == s + x && (([c] + t) + y)[1..] == t + y;
  }

  /** No printed tree is the beginning of another's: what follows it starts where it ends. */
  lemma {:induction false} PrintReadsOnce(a: Tree, b: Tree, x: string, y: string)
    requires Sound(a) && Sound(b) && Ended(x) && Ended(y)
    requires Print(a) + x == Print(b) + y
    ensures a == b && x == y
    decreases a, 2
  {
    SameKind(a, b, x, y);
    if a.Word? {
      WordsReadOnce(a.text, b.text, x, y);
    } else if a.Quoted? {
      AfterTheFirst('"', QuoteRest(a.s), QuoteRest(b.s), x, y);
      QuotesReadOnce(a.s, b.s, x, y);
    } else if a.List? {
      AfterTheFirst('[', PrintItems(a.items, true), PrintItems(b.items, true), x, y);
      ItemsReadOnce(a.items, b.items, true, x, y);
    } else {
      AfterTheFirst('{', PrintMembers(a.members, true), PrintMembers(b.members, true), x, y);
      MembersReadOnce(a.members, b.members, true, x, y);
    }
  }

  lemma ItemsContinue(items: seq<Tree>, x: string)
    ensures Ended(PrintItems(items, false) + x)
  {
  }

  lemma MembersContinue(members: seq<Member>, x: string)
    ensures Ended(PrintMembers(members, false) + x)
  {
  }

  lemma ItemsStart(items: seq<Tree>, first: bool, x: string)
    requires forall i :: 0 <= i < |items| ==> Sound(items[i])
    ensures items == [] <==> (PrintItems(items, first) + x)[0] == ']'
    ensures items != [] ==>
              (PrintItems(items, first) + x)[if first then 0 else 1..]
              == Print(items[0]) + (PrintItems(items[1..], false) + x)
  {
    if items != [] {
      PrintStart(items[0]);
      var rest := Print(items[0]) + (PrintItems(items[1..], false) + x);
      assert PrintItems(items, first) + x == (if first then "" else ",") + rest;
      assert rest[0] == Print(items[0])[0];
    }
  }

  lemma {:induction false} ItemsReadOnce(a: seq<Tree>, b: seq<Tree>, first: bool, x: string, y: string)
    requires forall i :: 0 <= i < |a| ==> Sound(a[i])
    requires forall i :: 0 <= i < |b| ==> Sound(b[i])
    requires PrintItems(a, first) + x == PrintItems(b, first) + y
    ensures a == b && x == y
    decreases a, 1
  {
    ItemsStart(a, first, x);
    ItemsStart(b, first, y);
    if a == [] {
      assert (PrintItems(a, first) + x)[1..] == x && (PrintItems(b, first) + y)[1..] == y;
    } else {
      ItemsContinue(a[1..], x);
      ItemsContinue(b[1..], y);
      PrintReadsOnce(a[0], b[0], PrintItems(a[1..], false) + x, PrintItems(b[1..], false) + y);
      ItemsReadOnce(a[1..], b[1..], false, x, y);
      assert a == [a[0]] + a[1..] && b == [b[0]] + b[1..];
    }
  }

  ghost function MemberRest(m: Member, more: seq<Member>, x: string): string {
    ":" + (Print(m.value) + (PrintMembers(more, false) + x))
  }

  lemma MembersStart(members: seq<Member>, first: bool, x: string)
    ensures members == [] <==> (PrintMembers(members, first) + x)[0] == '}'
    ensures members != [] ==>
              (PrintMembers(members, first) + x)[if first then 1 else 2..]
              == QuoteRest(members[0].key) + MemberRest(members[0], members[1..], x)
  {
    if members != [] {
      var m, more := members[0], members[1..];
      var tail := ":" + (Print(m.value) + PrintMembers(more, false));
      var comma := if first then "" else ",";
      var start := comma + "\"";
      var rest := QuoteRest(m.key) + tail;
      assert PrintMembers(members, first) == comma + (Quote(m.key) + tail);
      Regroup("\"", QuoteRest(m.key), tail);
      Regroup(comma, "\"", rest);
      Regroup(start, rest, x);
      Regroup(QuoteRest(m.key), tail, x);
      Regroup(":", Print(m.value) + PrintMembers(more, false), x);
      Regroup(Print(m.value), PrintMembers(more, false), x);
      DropStart(start, rest + x);
    }
  }

  lemma DropStart(start: string, rest: string)
    ensures (start + rest)[|start|..] == rest
    ensures start != [] ==> (start + rest)[0] == start[0]
  {
  }

  lemma {:induction false} MembersReadOnce(
    a: seq<Member>, b: seq<Member>, first: bool, x: string, y: string)
    requires forall i :: 0 <= i < |a| ==> Sound(a[i].value)
    requires forall i :: 0 <= i < |b| ==> Sound(b[i].value)
    requires PrintMembers(a, first) + x == PrintMembers(b, first) + y
    ensures a == b && x == y
    decreases a, 1
  {
    MembersStart(a, first, x);
    MembersStart(b, first, y);
    if a == [] {
      assert (PrintMembers(a, first) + x)[1..] == x && (PrintMembers(b, first) + y)[1..] == y;
    } else {
      MemberReads(a, b, x, y);
      MembersContinue(a[1..], x);
      MembersContinue(b[1..], y);
      PrintReadsOnce(a[0].value, b[0].value, PrintMembers(a[1..], false) + x, PrintMembers(b[1..], false) + y);
      MembersReadOnce(a[1..], b[1..], false, x, y);
      assert a == [a[0]] + a[1..] && b == [b[0]] + b[1..];
    }
  }

  lemma MemberReads(a: seq<Member>, b: seq<Member>, x: string, y: string)
    requires a != [] && b != []
    requires QuoteRest(a[0].key) + MemberRest(a[0], a[1..], x) == QuoteRest(b[0].key) + MemberRest(b[0], b[1..], y)
    ensures a[0].key == b[0].key
    ensures Print(a[0].value) + (PrintMembers(a[1..], false) + x) == Print(b[0].value) + (PrintMembers(b[1..], false) + y)
  {
    var u, v := MemberRest(a[0], a[1..], x), MemberRest(b[0], b[1..], y);
    QuotesReadOnce(a[0].key, b[0].key, u, v);
    assert u[1..] == Print(a[0].value) + (PrintMembers(a[1..], false) + x);
    assert v[1..] == Print(b[0].value) + (PrintMembers(b[1..], false) + y);
  }

  // ---- which values print alike --------------------------------------------

  /** The value without the null members of its objects, at every level. */
  function Strip(j: Json): Json
    decreases j
  {
    match j
    case Array(items) => Array(seq(|items|, i requires 0 <= i < |items| => Strip(items[i])))
    case Object(fields) => Object(map k | k in fields && !fields[k].Null? :: Strip(fields[k]))
    case _ => j
  }

  lemma {:induction false} CanonIsSound(j: Json)
    ensures Sound(Canon(j))
    decreases j
  {
    match j
    case Array(items) =>
      forall i | 0 <= i < |items| ensures Sound(Canon(j).items[i]) {
        CanonIsSound(items[i]);
      }
    case Object(fields) =>
      var keys := SortedKeys(NonNull(fields));
      forall i | 0 <= i < |keys| ensures Sound(Canon(j).members[i].value) {
        assert keys[i] in keys;
        CanonIsSound(fields[keys[i]]);
      }
    case Number(text) =>
      assert forall i :: 0 <= i < |text| ==> IsNumeralChar(text[i]);
    case _ =>
  }

  lemma WordsDiffer(text: Numeral)
    ensures text != "null" && text != "true" && text != "false"
  {
    assert IsNumeralChar(text[0]);
  }

  /** The canonical tree forgets exactly the order of keys and the null members. */
  lemma {:induction false} CanonForgetsNulls(a: Json, b: Json)
    ensures Canon(a) == Canon(b) <==> Strip(a) == Strip(b)
    decreases a
  {
    if a.Array? && b.Array? {
      ArraysForgetNulls(a, b);
    } else if a.Object? && b.Object? {
      if Canon(a) == Canon(b) {
        SameMembers(a, b);
      }
      if Strip(a) == Strip(b) {
        SameFields(a, b);
      }
    } else {
      if a.Number? {
        WordsDiffer(a.text);
      }
      if b.Number? {
        WordsDiffer(b.text);
      }
    }
  }

  lemma {:induction false} ArraysForgetNulls(a: Json, b: Json)
    requires a.Array? && b.Array?
    ensures Canon(a) == Canon(b) <==> Strip(a) == Strip(b)
    decreases a, 0
  {
    if |a.items| == |b.items| {
      forall i | 0 <= i < |a.items|
        ensures Canon(a).items[i] == Canon(b).items[i] <==> Strip(a).items[i] == Strip(b).items[i]
      {
        CanonForgetsNulls(a.items[i], b.items[i]);
      }
      if Strip(a) == Strip(b) {
        assert Canon(a).items == Canon(b).items;
      }
      if Canon(a) == Canon(b) {
        assert Strip(a).items == Strip(b).items;
      }
    } else {
      assert |Canon(a).items| != |Canon(b).items| && |Strip(a).items| != |Strip(b).items|;
    }
  }

  lemma {:induction false} SameMembers(a: Json, b: Json)
    requires a.Object? && b.Object? && Canon(a) == Canon(b)
    ensures Strip(a) == Strip(b)
    decreases a, 0
  {
    var ka, kb := SortedKeys(NonNull(a.fields)), SortedKeys(NonNull(b.fields));
    var ms := Canon(a).members;
    assert |ka| == |ms| == |kb|;
    forall i | 0 <= i < |ka| ensures ka[i] == kb[i] {
      assert ms[i].key == ka[i] && Canon(b).members[i].key == kb[i];
    }
    assert ka == kb;
    forall k | k in NonNull(a.fields) ensures k in b.fields && Strip(a.fields[k]) == Strip(b.fields[k]) {
      assert k in ka;
      var i :| 0 <= i < |ka| && ka[i] == k;
      assert ms[i].value == Canon(a.fields[k]) && Canon(b).members[i].value == Canon(b.fields[k]);
      CanonForgetsNulls(a.fields[k], b.fields[k]);
    }
    assert NonNull(a.fields) == NonNull(b.fields) by {
      forall k ensures k in NonNull(a.fields) <==> k in NonNull(b.fields) {
        assert k in ka <==> k in kb;
      }
    }
    assert Strip(a).fields == Strip(b).fields;
  }

  lemma {:induction false} SameFields(a: Json, b: Json)
    requires a.Object? && b.Object? && Strip(a) == Strip(b)
    ensures Canon(a) == Canon(b)
    decreases a, 0
  {
    assert Strip(a).fields.Keys == NonNull(a.fields) && Strip(b).fields.Keys == NonNull(b.fields);
    var keys := SortedKeys(NonNull(a.fields));
    forall i | 0 <= i < |keys| ensures Canon(a).members[i] == Canon(b).members[i] {
      var k := keys[i];
      assert k in keys;
      assert Strip(a).fields[k] == Strip(a.fields[k]) && Strip(b).fields[k] == Strip(b.fields[k]);
      CanonForgetsNulls(a.fields[k], b.fields[k]);
    }
    assert Canon(a).members == Canon(b).members;
  }

  /** Two values print the same exactly when they are equal once null members are dropped. */
  lemma PrintedAlikeWhen(a: Json, b: Json)
    ensures Canonical(a) == Canonical(b) <==> Strip(a) == Strip(b)
  {
    CanonForgetsNulls(a, b);
    if Canonical(a) == Canonical(b) {
      CanonIsSound(a);
      CanonIsSound(b);
      assert Canonical(a) + [] == Canonical(b) + [];
      PrintReadsOnce(Canon(a), Canon(b), [], []);
    }
  }
}
