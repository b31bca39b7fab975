/** The canonical text of an artifact, and a reader that undoes it. */
module Canonical {
  import opened Json
  import opened Ordering

  // ---------------------------------------------------------------------------------------
  // Writing
  // ---------------------------------------------------------------------------------------

  function HexDigit(n: int): char
    requires 0 <= n < 16
  {
    (if n < 10 then '0' as int + n else 'a' as int + n - 10) as char
  }

  function UnicodeEscape(c: char): string
    requires c as int < 0x10000
  {
    var n := c as int;
    var m := n / 16;
    var l := m / 16;
    ['\\', 'u', HexDigit(l / 16), HexDigit(l % 16), HexDigit(m % 16), HexDigit(n % 16)]
  }

  /** The escapes of section 7 of RFC 8259, and those that Go adds for HTML and JavaScript. */
  function EscapeChar(c: char): string {
    if c == '\"' then ['\\', '\"']
    else if c == '\\' then ['\\', '\\']
    else if c == '\n' then ['\\', 'n']
    else if c == '\r' then ['\\', 'r']
    else if c == '\t' then ['\\', 't']
    else if c as int == 8 then ['\\', 'b']
    else if c as int == 12 then ['\\', 'f']
    else if c as int < 32 || c == '<' || c == '>' || c == '&' || c as int == 0x2028 || c as int == 0x2029
      then UnicodeEscape(c)
    else [c]
  }

  function Escape(s: string): string {
    if s == [] then [] else EscapeChar(s[0]) + Escape(s[1..])
  }

  function StringText(s: string): string {
    ['\"'] + Escape(s) + ['\"']
  }

  function DigitChar(n: int): char
    requires 0 <= n < 10
  {
    ('0' as int + n) as char
  }

  function NaturalText(n: nat): string {
    if n < 10 then [DigitChar(n)] else NaturalText(n / 10) + [DigitChar(n % 10)]
  }

  function IntegerText(n: int): string {
    if n < 0 then ['-'] + NaturalText(-n) else NaturalText(n)
  }

  /** Every number in `j` is an integer. */
  predicate IntegersOnly(j: Json) {
    match j
    case Num(n) => IsInteger(n)
    case Arr(xs) => forall i | 0 <= i < |xs| :: IntegersOnly(xs[i])
    case Obj(m) => forall k | k in m :: IntegersOnly(m[k])
    case _ => true
  }

  function Text(j: Json): string
    requires IntegersOnly(j)
    decreases j, 1, 0
  {
    match j
    case Null => "null"
    case Bool(b) => if b then "true" else "false"
    case Num(n) => IntegerText(n.Floor)
    case Str(s) => StringText(s)
    case Arr(xs) => "[" + ItemsText(j, 0) + "]"
    case Obj(m) => "{" + MembersText(j, Sorted(m.Keys)) + "}"
  }

  /** The items of an array from position `i` on, separated by commas. */
  function ItemsText(j: Json, i: nat): string
    requires j.Arr? && IntegersOnly(j) && i <= |j.items|
    decreases j, 0, |j.items| - i
  {
    if i == |j.items| then ""
    else if i + 1 == |j.items| then Text(j.items[i])
    else Text(j.items[i]) + ("," + ItemsText(j, i + 1))
  }

  /** The members named by `keys`, in that order, separated by commas. */
  function MembersText(j: Json, keys: seq<string>): string
    requires j.Obj? && IntegersOnly(j) && forall k | k in keys :: k in j.members
    decreases j, 0, |keys|
  {
    if keys == [] then ""
    else
      var member := StringText(keys[0]) + ":" + Text(j.members[keys[0]]);
      if |keys| == 1 then member else member + ("," + MembersText(j, keys[1..]))
  }

  // ---------------------------------------------------------------------------------------
  // Reading
  // ---------------------------------------------------------------------------------------

  predicate IsDigit(c: char) { '0' <= c <= '9' }

  function DigitValue(c: char): nat
    requires IsDigit(c)
  {
    c as int - '0' as int
  }

  function HexValue(c: char): Option<nat> {
    if IsDigit(c) then Some(DigitValue(c))
    else if 'a' <= c <= 'f' then Some(10 + (c as int - 'a' as int))
    else if 'A' <= c <= 'F' then Some(10 + (c as int - 'A' as int))
    else None
  }

  /** The character a four-digit escape stands for; a lone surrogate is none. */
  function ReadHex(a: char, b: char, c: char, d: char): Option<char> {
    match (HexValue(a), HexValue(b), HexValue(c), HexValue(d))
    case (Some(w), Some(x), Some(y), Some(z)) =>
      var n := ((w * 16 + x) * 16 + y) * 16 + z;
      if n < 0xD800 || 0xE000 <= n < 0x10000 then Some(n as char) else None
    case _ => None
  }

  /** One character of a string and the text after it. */
  function ReadChar(s: string): (r: Option<(char, string)>)
    ensures r.Some? ==> |r.value.1| < |s|
  {
    if s == [] || s[0] == '\"' || s[0] as int < 32 then None
    else if s[0] != '\\' then Some((s[0], s[1..]))
    else if |s| < 2 then None
    else
      match s[1]
      case '\"' => Some(('\"', s[2..]))
      case '\\' => Some(('\\', s[2..]))
      case '/' => Some(('/', s[2..]))
      case 'n' => Some(('\n', s[2..]))
      case 'r' => Some(('\r', s[2..]))
      case 't' => Some(('\t', s[2..]))
      case 'b' => Some((8 as char, s[2..]))
      case 'f' => Some((12 as char, s[2..]))
      case 'u' =>
        if |s| < 6 then None
        else
          (match ReadHex(s[2], s[3], s[4], s[5])
           case None => None
           case Some(c) => Some((c, s[6..])))
      case _ => None
  }

  /** The characters up to the closing quote, and the text after it. */
  function ReadChars(s: string): (r: Option<(string, string)>)
    ensures r.Some? ==> |r.value.1| < |s|
    decreases |s|
  {
    if s == [] then None
    else if s[0] == '\"' then Some(("", s[1..]))
    else
      match ReadChar(s)
      case None => None
      case Some((c, rest)) =>
        (match ReadChars(rest)
         case None => None
         case Some((cs, after)) => Some(([c] + cs, after)))
  }

  function ReadString(s: string): (r: Option<(string, string)>)
    ensures r.Some? ==> |r.value.1| < |s|
  {
    if s == [] || s[0] != '\"' then None else ReadChars(s[1..])
  }

  function ReadDigits(s: string, sofar: nat): (r: (nat, string))
    ensures |r.1| <= |s|
    ensures s != [] && IsDigit(s[0]) ==> |r.1| < |s|
  {
    if s == [] || !IsDigit(s[0]) then (sofar, s)
    else ReadDigits(s[1..], sofar * 10 + DigitValue(s[0]))
  }

  function ReadInteger(s: string): (r: Option<(int, string)>)
    ensures r.Some? ==> |r.value.1| < |s|
  {
    var negative := s != [] && s[0] == '-';
    var digits := if negative then s[1..] else s;
    if digits == [] || !IsDigit(digits[0]) then None
    else
      var read := ReadDigits(digits, 0);
      var value: int := read.0;
      Some((if negative then -value else value, read.1))
  }

  /** One value and the text after it. */
  function ReadValue(s: string): (r: Option<(Json, string)>)
    ensures r.Some? ==> |r.value.1| < |s|
    decreases |s|, 0
  {
    if "null" <= s then Some((Null, s[4..]))
    else if "true" <= s then Some((Bool(true), s[4..]))
    else if "false" <= s then Some((Bool(false), s[5..]))
    else if s == [] then None
    else if s[0] == '\"' then
      match ReadString(s)
      case None => None
      case Some((text, rest)) => Some((Str(text), rest))
    else if s[0] == '[' then
      if |s| >= 2 && s[1] == ']' then Some((Arr([]), s[2..]))
      else
        (match ReadItems(s[1..])
         case None => None
         case Some((xs, rest)) => Some((Arr(xs), rest)))
    else if s[0] == '{' then
      if |s| >= 2 && s[1] == '}' then Some((Obj(map[]), s[2..]))
      else
        (match ReadMembers(s[1..])
         case None => None
         case Some((m, rest)) => Some((Obj(m), rest)))
    else
      match ReadInteger(s)
      case None => None
      case Some((n, rest)) => Some((Num(n as real), rest))
  }

  /** At least one value, up to the closing bracket. */
  function ReadItems(s: string): (r: Option<(seq<Json>, string)>)
    ensures r.Some? ==> |r.value.1| < |s|
    decreases |s|, 1
  {
    match ReadValue(s)
    case None => None
    case Some((x, rest)) =>
      if rest == [] then None
      else if rest[0] == ']' then Some(([x], rest[1..]))
      else if rest[0] != ',' then None
      else
        match ReadItems(rest[1..])
        case None => None
        case Some((xs, after)) => Some(([x] + xs, after))
  }

  /** At least one member, up to the closing brace. */
  function ReadMembers(s: string): (r: Option<(map<string, Json>, string)>)
    ensures r.Some? ==> |r.value.1| < |s|
    decreases |s|, 1
  {
    match ReadString(s)
    case None => None
    case Some((key, colon)) =>
      if colon == [] || colon[0] != ':' then None
      else
        match ReadValue(colon[1..])
        case None => None
        case Some((x, rest)) =>
          if rest == [] then None
          else if rest[0] == '}' then Some((map[key := x], rest[1..]))
          else if rest[0] != ',' then None
          else
            match ReadMembers(rest[1..])
            case None => None
            case Some((m, after)) => Some((m[key := x], after))
  }

  // ---------------------------------------------------------------------------------------
  // Reading undoes writing
  // ---------------------------------------------------------------------------------------

  /** What follows a value never continues a number. */
  predicate Ends(rest: string) {
    rest == [] || !IsDigit(rest[0])
  }

  lemma CharRoundTrip(c: char, rest: string)
    ensures EscapeChar(c) != [] && EscapeChar(c)[0] != '\"'
    ensures ReadChar(EscapeChar(c) + rest) == Some((c, rest))
  {
    var s := EscapeChar(c) + rest;
    if |EscapeChar(c)| == 6 {
      assert s[6..] == rest;
    } else if |EscapeChar(c)| == 2 {
      assert s[2..] == rest;
    } else {
      assert s[1..] == rest;
    }
  }

  lemma {:induction false} CharsRoundTrip(text: string, rest: string)
    ensures ReadChars(Escape(text) + ['\"'] + rest) == Some((text, rest))
  {
    var s := Escape(text) + ['\"'] + rest;
    if text == [] {
      assert s[1..] == rest;
    } else {
      var after := Escape(text[1..]) + ['\"'] + rest;
      assert s == EscapeChar(text[0]) + after;
      CharRoundTrip(text[0], after);
      CharsRoundTrip(text[1..], rest);
      assert text == [text[0]] + text[1..];
    }
  }

  lemma StringRoundTrip(text: string, rest: string)
    ensures ReadString(StringText(text) + rest) == Some((text, rest))
  {
    CharsRoundTrip(text, rest);
    Quoted(Escape(text), rest);
  }

  lemma Quoted(escaped: string, rest: string)
    ensures
      var s := ['\"'] + escaped + ['\"'] + rest;
      s[0] == '\"' && s[1..] == escaped + ['\"'] + rest
  {
  }

  lemma {:induction false} DigitsRoundTrip(n: nat, rest: string)
    ensures ReadDigits(NaturalText(n) + rest, 0) == ReadDigits(rest, n)
    ensures IsDigit(NaturalText(n)[0])
  {
    if n < 10 {
      assert (NaturalText(n) + rest)[1..] == rest;
    } else {
      var last := [DigitChar(n % 10)] + rest;
      DigitsRoundTrip(n / 10, last);
      assert NaturalText(n) + rest == NaturalText(n / 10) + last;
      assert last[1..] == rest;
    }
  }

  lemma IntegerRoundTrip(n: int, rest: string)
    requires Ends(rest)
    ensures ReadInteger(IntegerText(n) + rest) == Some((n, rest))
    ensures IntegerText(n)[0] == '-' || IsDigit(IntegerText(n)[0])
  {
    var m := if n < 0 then -n else n;
    DigitsRoundTrip(m, rest);
    var s := IntegerText(n) + rest;
    if n < 0 {
      assert s[1..] == NaturalText(m) + rest;
    }
  }

  /** The first character tells the kinds of value apart. */
  lemma TextStarts(j: Json)
    requires IntegersOnly(j)
    ensures Text(j) != [] && Text(j)[0] != ']' && Text(j)[0] != '}'
  {
    if j.Num? {
      IntegerRoundTrip(j.n.Floor, "");
    }
  }

  /** The object with just the members that `keys` names. */
  function Chosen(j: Json, keys: seq<string>): map<string, Json>
    requires j.Obj? && forall k | k in keys :: k in j.members
  {
    map k | k in keys :: j.members[k]
  }

  lemma ReadsLiteral(s: string, literal: string, j: Json, rest: string)
    requires (literal == "null" && j == Null) || (literal == "true" && j == Bool(true))
          || (literal == "false" && j == Bool(false))
    requires s == literal + rest
    ensures ReadValue(s) == Some((j, rest))
  {
    assert s[0] == literal[0] && s[|literal|..] == rest;
  }

  lemma ReadsText(s: string, text: string, rest: string)
    requires ReadString(s) == Some((text, rest))
    ensures ReadValue(s) == Some((Str(text), rest))
  {
  }

  lemma Opening(open: string, inner: string, close: string, rest: string)
    requires |open| == |close| == 1 && inner != []
    ensures
      var s := open + inner + close + rest;
      s[0] == open[0] && s[1] == inner[0] && s[1..] == inner + close + rest
  {
  }

  lemma ReadsArray(s: string, xs: seq<Json>, rest: string)
    requires |s| >= 2 && s[0] == '[' && s[1] != ']'
    requires ReadItems(s[1..]) == Some((xs, rest))
    ensures ReadValue(s) == Some((Arr(xs), rest))
  {
  }

  lemma ReadsObject(s: string, m: map<string, Json>, rest: string)
    requires |s| >= 2 && s[0] == '{' && s[1] != '}'
    requires ReadMembers(s[1..]) == Some((m, rest))
    ensures ReadValue(s) == Some((Obj(m), rest))
  {
  }

  lemma {:induction false} RoundTrip(j: Json, rest: string)
    requires IntegersOnly(j) && Ends(rest)
    ensures ReadValue(Text(j) + rest) == Some((j, rest))
    decreases j, 3, 0
  {
    match j
    case Null => ReadsLiteral(Text(j) + rest, "null", j, rest);
    case Bool(b) => ReadsLiteral(Text(j) + rest, if b then "true" else "false", j, rest);
    case Num(n) =>
      IntegerRoundTrip(n.Floor, rest);
    case Str(text) =>
      StringRoundTrip(text, rest);
      ReadsText(Text(j) + rest, text, rest);
    case Arr(xs) => ArrayRoundTrip(j, rest);
    case Obj(m) => ObjectRoundTrip(j, rest);
  }

  lemma {:induction false} ArrayRoundTrip(j: Json, rest: string)
    requires j.Arr? && IntegersOnly(j) && Ends(rest)
    ensures ReadValue(Text(j) + rest) == Some((j, rest))
    decreases j, 2, 0
  {
    if j.items == [] {
      EmptyRoundTrip(rest);
      assert Text(j) == "[]";
    } else {
      ItemsRoundTrip(j, 0, rest);
      assert j.items[0..] == j.items;
      ItemsStart(j);
      Opening("[", ItemsText(j, 0), "]", rest);
      ReadsArray("[" + ItemsText(j, 0) + "]" + rest, j.items, rest);
    }
  }

  lemma ItemsStart(j: Json)
    requires j.Arr? && IntegersOnly(j) && j.items != []
    ensures ItemsText(j, 0) != [] && ItemsText(j, 0)[0] != ']'
  {
    TextStarts(j.items[0]);
  }

  lemma EmptyRoundTrip(rest: string)
    ensures ReadValue("[]" + rest) == Some((Arr([]), rest))
    ensures ReadValue("{}" + rest) == Some((Obj(map[]), rest))
  {
    var empty, blank := "[]" + rest, "{}" + rest;
    assert empty[0] == '[' && empty[1] == ']' && empty[2..] == rest;
    assert blank[0] == '{' && blank[1] == '}' && blank[2..] == rest;
  }

  lemma {:induction false} ObjectRoundTrip(j: Json, rest: string)
    requires j.Obj? && IntegersOnly(j) && Ends(rest)
    ensures ReadValue(Text(j) + rest) == Some((j, rest))
    decreases j, 2, 0
  {
    var keys := Sorted(j.members.Keys);
    if j.members == map[] {
      EmptyRoundTrip(rest);
      assert Text(j) == "{}";
    } else {
      assert |keys| == |j.members.Keys| == |j.members| > 0;
      OrderedObjectRoundTrip(j, keys, rest);
      assert Chosen(j, keys) == j.members;
    }
  }

  /** Whatever the order in which its members are written, an object reads back. */
  lemma {:induction false} OrderedObjectRoundTrip(j: Json, keys: seq<string>, rest: string)
    requires j.Obj? && IntegersOnly(j) && keys != [] && forall k | k in keys :: k in j.members
    ensures ReadValue("{" + MembersText(j, keys) + "}" + rest) == Some((Obj(Chosen(j, keys)), rest))
    decreases j, 1, 0
  {
    MembersRoundTrip(j, keys, rest);
    Opening("{", MembersText(j, keys), "}", rest);
    ReadsObject("{" + MembersText(j, keys) + "}" + rest, Chosen(j, keys), rest);
  }

  lemma {:induction false} ItemsRoundTrip(j: Json, i: nat, rest: string)
    requires j.Arr? && IntegersOnly(j) && i < |j.items|
    ensures ReadItems(ItemsText(j, i) + "]" + rest) == Some((j.items[i..], rest))
    decreases j, 0, |j.items| - i
  {
    var x := j.items[i];
    assert j.items[i..] == [x] + j.items[i + 1..];
    if i + 1 == |j.items| {
      RoundTrip(x, "]" + rest);
      Closing(Text(x), "]", rest);
      assert j.items[i..] == [x];
    } else {
      var more := ItemsText(j, i + 1);
      RoundTrip(x, "," + (more + "]" + rest));
      ItemsRoundTrip(j, i + 1, rest);
      Continuing(Text(x), more, "]", rest);
      NextItem(Text(x) + ("," + (more + "]" + rest)), x, "," + (more + "]" + rest), j.items[i + 1..], rest);
    }
  }

  lemma Closing(text: string, close: string, rest: string)
    requires |close| == 1
    ensures text + close + rest == text + (close + rest)
    ensures (close + rest)[0] == close[0] && (close + rest)[1..] == rest
  {
  }

  lemma Continuing(text: string, more: string, close: string, rest: string)
    ensures text + ("," + more) + close + rest == text + ("," + (more + close + rest))
    ensures ("," + (more + close + rest))[0] == ','
    ensures ("," + (more + close + rest))[1..] == more + close + rest
  {
  }

  lemma NextItem(s: string, x: Json, comma: string, xs: seq<Json>, rest: string)
    requires ReadValue(s) == Some((x, comma))
    requires comma != [] && comma[0] == ','
    requires ReadItems(comma[1..]) == Some((xs, rest))
    ensures ReadItems(s) == Some(([x] + xs, rest))
  {
  }

  lemma {:induction false} MembersRoundTrip(j: Json, keys: seq<string>, rest: string)
    requires j.Obj? && IntegersOnly(j) && keys != [] && forall k | k in keys :: k in j.members
    ensures ReadMembers(MembersText(j, keys) + "}" + rest) == Some((Chosen(j, keys), rest))
    decreases j, 0, |keys|
  {
    var key, x := keys[0], j.members[keys[0]];
    if |keys| == 1 {
      RoundTrip(x, "}" + rest);
      LastMemberRoundTrip(j, keys, rest);
    } else {
      RoundTrip(x, "," + (MembersText(j, keys[1..]) + "}" + rest));
      MembersRoundTrip(j, keys[1..], rest);
      MoreMembersRoundTrip(j, keys, rest);
    }
  }

  lemma LastMemberRoundTrip(j: Json, keys: seq<string>, rest: string)
    requires j.Obj? && IntegersOnly(j) && |keys| == 1 && forall k | k in keys :: k in j.members
    requires var x := j.members[keys[0]]; ReadValue(Text(x) + ("}" + rest)) == Some((x, "}" + rest))
    ensures ReadMembers(MembersText(j, keys) + "}" + rest) == Some((Chosen(j, keys), rest))
  {
    var key, x := keys[0], j.members[keys[0]];
    StringRoundTrip(key, ":" + (Text(x) + ("}" + rest)));
    OnlyMember(StringText(key), key, Text(x), x, rest);
    MembersTextLast(j, keys);
    ChosenOne(j, keys);
  }

  lemma MoreMembersRoundTrip(j: Json, keys: seq<string>, rest: string)
    requires j.Obj? && IntegersOnly(j) && |keys| > 1 && forall k | k in keys :: k in j.members
    requires var x, after := j.members[keys[0]], "," + (MembersText(j, keys[1..]) + "}" + rest);
             ReadValue(Text(x) + after) == Some((x, after))
    requires ReadMembers(MembersText(j, keys[1..]) + "}" + rest) == Some((Chosen(j, keys[1..]), rest))
    ensures ReadMembers(MembersText(j, keys) + "}" + rest) == Some((Chosen(j, keys), rest))
  {
    var key, x, more := keys[0], j.members[keys[0]], MembersText(j, keys[1..]);
    StringRoundTrip(key, ":" + (Text(x) + ("," + (more + "}" + rest))));
    OneMoreMember(StringText(key), key, Text(x), x, more, Chosen(j, keys[1..]), rest);
    MembersTextMore(j, keys);
    assert Chosen(j, keys) == Chosen(j, keys[1..])[key := x];
  }

  lemma ChosenOne(j: Json, keys: seq<string>)
    requires j.Obj? && |keys| == 1 && forall k | k in keys :: k in j.members
    ensures Chosen(j, keys) == map[keys[0] := j.members[keys[0]]]
  {
    assert keys == [keys[0]];
  }

  lemma MembersTextLast(j: Json, keys: seq<string>)
    requires j.Obj? && IntegersOnly(j) && |keys| == 1 && forall k | k in keys :: k in j.members
    ensures MembersText(j, keys) == StringText(keys[0]) + ":" + Text(j.members[keys[0]])
  {
  }

  lemma MembersTextMore(j: Json, keys: seq<string>)
    requires j.Obj? && IntegersOnly(j) && |keys| > 1 && forall k | k in keys :: k in j.members
    ensures MembersText(j, keys)
         == StringText(keys[0]) + ":" + Text(j.members[keys[0]]) + ("," + MembersText(j, keys[1..]))
  {
  }

  lemma OnlyMember(name: string, key: string, text: string, x: Json, rest: string)
    requires ReadString(name + (":" + (text + ("}" + rest)))) == Some((key, ":" + (text + ("}" + rest))))
    requires ReadValue(text + ("}" + rest)) == Some((x, "}" + rest))
    ensures ReadMembers(name + ":" + text + "}" + rest) == Some((map[key := x], rest))
  {
    var value := text + ("}" + rest);
    Closing(name + ":" + text, "}", rest);
    Naming(name, text, "}" + rest);
    LastMember(name + (":" + value), key, ":" + value, x, "}" + rest);
  }

  lemma OneMoreMember(
    name: string, key: string, text: string, x: Json, more: string, m: map<string, Json>, rest: string)
    requires ReadString(name + (":" + (text + ("," + (more + "}" + rest)))))
          == Some((key, ":" + (text + ("," + (more + "}" + rest)))))
    requires ReadValue(text + ("," + (more + "}" + rest))) == Some((x, "," + (more + "}" + rest)))
    requires ReadMembers(more + "}" + rest) == Some((m, rest))
    ensures ReadMembers(name + ":" + text + ("," + more) + "}" + rest) == Some((m[key := x], rest))
  {
    var value := text + ("," + (more + "}" + rest));
    Continuing(name + ":" + text, more, "}", rest);
    Naming(name, text, "," + (more + "}" + rest));
    NextMember(name + (":" + value), key, ":" + value, x, "," + (more + "}" + rest), m, rest);
  }

  lemma Naming(name: string, text: string, after: string)
    ensures name + ":" + text + after == name + (":" + (text + after))
    ensures (":" + (text + after))[0] == ':' && (":" + (text + after))[1..] == text + after
  {
  }

  lemma LastMember(s: string, key: string, colon: string, x: Json, close: string)
    requires ReadString(s) == Some((key, colon))
    requires colon != [] && colon[0] == ':' && ReadValue(colon[1..]) == Some((x, close))
    requires close != [] && close[0] == '}'
    ensures ReadMembers(s) == Some((map[key := x], close[1..]))
  {
  }

  lemma NextMember(
    s: string, key: string, colon: string, x: Json, comma: string, m: map<string, Json>, rest: string)
    requires ReadString(s) == Some((key, colon))
    requires colon != [] && colon[0] == ':' && ReadValue(colon[1..]) == Some((x, comma))
    requires comma != [] && comma[0] == ',' && ReadMembers(comma[1..]) == Some((m, rest))
    ensures ReadMembers(s) == Some((m[key := x], rest))
  {
  }

  /** Two values with the same text are equal. */
  lemma TextIsInjective(a: Json, b: Json)
    requires IntegersOnly(a) && IntegersOnly(b)
    requires Text(a) == Text(b)
    ensures a == b
  {
    RoundTrip(a, "");
    RoundTrip(b, "");
  }

  // ---------------------------------------------------------------------------------------
  // What the text looks like
  // ---------------------------------------------------------------------------------------

  /** The characters that JSON, and Go for the sake of HTML and JavaScript, do not leave as they are. */
  predicate Special(c: char) {
    var n := c as int;
    n < 32 || n == 0x2028 || n == 0x2029 || c == '\"' || c == '\\' || c == '<' || c == '>' || c == '&'
  }

  const SHORT := map['\"' := '\"', '\\' := '\\', 8 as char := 'b', 9 as char := 't', 10 as char := 'n',
                     12 as char := 'f', 13 as char := 'r']

  /** The value of a lower-case hexadecimal digit. */
  function LowerHex(c: char): Option<int> {
    if '0' <= c <= '9' then Some(c as int - '0' as int)
    else if 'a' <= c <= 'f' then Some(c as int - 'a' as int + 10)
    else None
  }

  /** The four lower-case digits of a character's code. */
  predicate HasFourDigits(e: string, c: char) {
    && |e| == 6 && e[0] == '\\' && e[1] == 'u'
    && (forall i | 2 <= i < 6 :: LowerHex(e[i]).Some?)
    && c as int == 4096 * LowerHex(e[2]).value + 256 * LowerHex(e[3]).value
                   + 16 * LowerHex(e[4]).value + LowerHex(e[5]).value
  }

  lemma HexDigitIsRead(n: int)
    requires 0 <= n < 16
    ensures LowerHex(HexDigit(n)) == Some(n)
  {
  }

  lemma UnicodeEscapeExactly(c: char)
    requires c as int < 0x10000
    ensures HasFourDigits(UnicodeEscape(c), c)
  {
    var n := c as int;
    HexDigitIsRead(n / 16 / 16 / 16);
    HexDigitIsRead(n / 16 / 16 % 16);
    HexDigitIsRead(n / 16 % 16);
    HexDigitIsRead(n % 16);
  }

  /** A character stays as it is unless it is special; the seven with a short escape have that one, and
      the others the four lower-case digits of their code. */
  lemma EscapeExactly(c: char)
    ensures if !Special(c) then EscapeChar(c) == [c]
            else if c in SHORT then EscapeChar(c) == ['\\', SHORT[c]]
            else HasFourDigits(EscapeChar(c), c)
  {
    if Special(c) && c !in SHORT {
      UnicodeEscapeExactly(c);
    }
  }

  lemma {:induction false} DigitsAreShort(n: nat)
    ensures n > 0 ==> NaturalText(n)[0] != '0'
    ensures n == 0 ==> NaturalText(n) == "0"
    ensures forall i | 0 <= i < |NaturalText(n)| :: IsDigit(NaturalText(n)[i])
  {
    if n >= 10 {
      DigitsAreShort(n / 10);
    }
  }

  /** An integer is a sign for negative numbers and its digits, without a leading zero. */
  lemma IntegerTextExactly(n: int)
    ensures var text := IntegerText(n);
            var digits := if n < 0 then text[1..] else text;
            && text != [] && digits != [] && (text[0] == '-' <==> n < 0)
            && (forall i | 0 <= i < |digits| :: IsDigit(digits[i]))
            && (digits[0] == '0' ==> n == 0 && |digits| == 1)
  {
    DigitsAreShort(if n < 0 then -n else n);
  }

  /** A character that may stand in canonical text. */
  predicate Safe(c: char) {
    32 <= c as int && c as int != 0x2028 && c as int != 0x2029 && c != '<' && c != '>' && c != '&'
  }

  lemma {:induction false} EscapedIsSafe(s: string)
    ensures forall i | 0 <= i < |Escape(s)| :: Safe(Escape(s)[i])
  {
    if s != [] {
      EscapeExactly(s[0]);
      EscapedIsSafe(s[1..]);
    }
  }

  /** The text of every value can stand in HTML and in JavaScript as it is, and has no line ends. */
  lemma {:induction false} TextIsSafe(j: Json)
    requires IntegersOnly(j)
    ensures forall i | 0 <= i < |Text(j)| :: Safe(Text(j)[i])
    decreases j, 1, 0
  {
    match j
    case Null =>
    case Bool(_) =>
    case Num(n) =>
      DigitsAreShort(if n.Floor < 0 then -n.Floor else n.Floor);
    case Str(s) => EscapedIsSafe(s);
    case Arr(_) => ItemsAreSafe(j, 0);
    case Obj(m) => MembersAreSafe(j, Sorted(m.Keys));
  }

  lemma {:induction false} ItemsAreSafe(j: Json, i: nat)
    requires j.Arr? && IntegersOnly(j) && i <= |j.items|
    ensures forall n | 0 <= n < |ItemsText(j, i)| :: Safe(ItemsText(j, i)[n])
    decreases j, 0, |j.items| - i
  {
    if i < |j.items| {
      TextIsSafe(j.items[i]);
      ItemsAreSafe(j, i + 1);
    }
  }

  lemma {:induction false} MembersAreSafe(j: Json, keys: seq<string>)
    requires j.Obj? && IntegersOnly(j) && forall k | k in keys :: k in j.members
    ensures forall n | 0 <= n < |MembersText(j, keys)| :: Safe(MembersText(j, keys)[n])
    decreases j, 0, |keys|
  {
    if keys != [] {
      EscapedIsSafe(keys[0]);
      TextIsSafe(j.members[keys[0]]);
      MembersAreSafe(j, keys[1..]);
    }
  }
}
