/** Cron expressions: what one matches, which ones are accepted, and what the
    text of one means. */
module Cron {
  import opened Options
  import opened Arith
  import opened Text
  import opened Calendar

  /** The calendar fields of an instant. */
  datatype Fields = Fields(minute: nat, hour: nat, dom: nat, month: nat, dow: nat)

  function FieldsFromUnix(secs: int): (f: Fields)
    ensures f.minute < 60 && f.hour < 24 && f.dow < 7
    ensures 1 <= f.month <= 12 && 1 <= f.dom <= 31
  {
    var days := secs / 86_400;
    var secsOfDay := secs % 86_400;
    var c := CivilFromDays(days);
    CivilInverse(days);
    Fields((secsOfDay / 60) % 60, secsOfDay / 3600, c.day, c.month, (days % 7 + 4) % 7)
  }

  /** The fields and the date put the instant together again, and the days of the
      week follow each other from Thursday, 1970-01-01. */
  lemma FieldsAreRight(secs: int)
    ensures var f := FieldsFromUnix(secs);
      var c := CivilFromDays(secs / 86_400);
      && IsDate(c) && c.month == f.month && c.day == f.dom
      && secs == DaysFromCivil(c) * 86_400 + f.hour * 3600 + f.minute * 60 + secs % 60
      && FieldsFromUnix(secs + 86_400).dow == (f.dow + 1) % 7
    ensures FieldsFromUnix(0).dow == 4
  {
    hide CivilFromDays, IsDate, DaysFromCivil;
    CivilInverse(secs / 86_400);
    ClockParts(secs);
    WeekdayMovesOn(secs);
  }

  lemma ClockParts(secs: int)
    ensures var s := secs % 86_400;
      s == 3600 * (s / 3600) + 60 * ((s / 60) % 60) + secs % 60
  {
    var s := secs % 86_400;
    assert secs == 60 * (1440 * (secs / 86_400)) + s;
    assert secs % 60 == s % 60;
    assert s / 3600 == (s / 60) / 60;
  }

  lemma WeekdayMovesOn(secs: int)
    ensures FieldsFromUnix(secs + 86_400).dow == (FieldsFromUnix(secs).dow + 1) % 7
    ensures FieldsFromUnix(0).dow == 4
  {
    hide CivilFromDays;
    assert (secs + 86_400) / 86_400 == secs / 86_400 + 1;
  }

  // ---- one field -------------------------------------------------------

  predicate IsStep(part: string) { "*/" <= part }

  /** Does one element of a comma list match `value`? */
  predicate PartMatches(part: string, value: nat, min: nat, max: nat) {
    if part == [] then false
    else if part == "*" then true
    else if IsStep(part) then
      match ParseU32(part[2..])
      case Some(step) => step != 0 && SatSub(value, min) % step == 0
      case None => false
    else match SplitOnce(part, '-')
      case Some((a, b)) =>
        (match (ParseU32(a), ParseU32(b))
         case (Some(lo), Some(hi)) => Max(lo, min) <= value <= Min(hi, max)
         case _ => false)
      case None => ParseU32(part) == Some(value)
  }

  predicate FieldMatches(field: string, value: nat, min: nat, max: nat) {
    exists i :: 0 <= i < |Split(field, ',')| && PartMatches(Trim(Split(field, ',')[i]), value, min, max)
  }

  method MatchField(field: string, value: nat, min: nat, max: nat) returns (hit: bool)
    ensures hit == FieldMatches(field, value, min, max)
  {
    var parts := Split(field, ',');
    for i := 0 to |parts|
      invariant forall j :: 0 <= j < i ==> !PartMatches(Trim(parts[j]), value, min, max)
    {
      var part := Trim(parts[i]);
      if part == [] {
        continue;
      }
      if part == "*" {
        return true;
      }
      if IsStep(part) {
        var step := ParseU32(part[2..]);
        if step.Some? && step.value != 0 && SatSub(value, min) % step.value == 0 {
          return true;
        }
        continue;
      }
      var bounds := SplitOnce(part, '-');
      if bounds.Some? {
        var a, b := ParseU32(bounds.value.0), ParseU32(bounds.value.1);
        if a.Some? && b.Some? {
          var lo, hi := Max(a.value, min), Min(b.value, max);
          if value >= lo && value <= hi {
            return true;
          }
        }
        continue;
      }
      var n := ParseU32(part);
      if n.Some? && n.value == value {
        return true;
      }
    }
    return false;
  }

  predicate PartValid(part: string, min: nat, max: nat) {
    if part == [] then false
    else if part == "*" then true
    else if IsStep(part) then
      match ParseU32(part[2..])
      case Some(n) => n != 0
      case None => false
    else match SplitOnce(part, '-')
      case Some((a, b)) =>
        (match (ParseU32(a), ParseU32(b))
         case (Some(lo), Some(hi)) => min <= lo <= max && min <= hi <= max && lo <= hi
         case _ => false)
      case None =>
        match ParseU32(part)
        case Some(n) => min <= n <= max
        case None => false
  }

  predicate FieldValid(field: string, min: nat, max: nat) {
    forall i :: 0 <= i < |Split(field, ',')| ==> PartValid(Trim(Split(field, ',')[i]), min, max)
  }

  // ---- the expression --------------------------------------------------

  predicate DowMatches(field: string, dow: nat) {
    FieldMatches(field, dow, 0, 6) || (dow == 0 && FieldMatches(field, 7, 0, 7))
  }

  predicate DateMatches(parts: seq<string>, f: Fields)
    requires |parts| == 5
  {
    FieldMatches(parts[2], f.dom, 1, 31) && FieldMatches(parts[3], f.month, 1, 12)
    && DowMatches(parts[4], f.dow)
  }

  predicate MatchesParts(parts: seq<string>, f: Fields)
    requires |parts| == 5
  {
    DateMatches(parts, f) && FieldMatches(parts[0], f.minute, 0, 59)
    && FieldMatches(parts[1], f.hour, 0, 23)
  }

  predicate Matches(expr: string, f: Fields) {
    var parts := SplitWhitespace(expr);
    |parts| == 5 && MatchesParts(parts, f)
  }

  predicate ValidParts(parts: seq<string>)
    requires |parts| == 5
  {
    FieldValid(parts[0], 0, 59) && FieldValid(parts[1], 0, 23) && FieldValid(parts[2], 1, 31)
    && FieldValid(parts[3], 1, 12) && FieldValid(parts[4], 0, 7)
  }

  predicate IsValid(expr: string) {
    var parts := SplitWhitespace(expr);
    |parts| == 5 && ValidParts(parts)
  }

  /** A value that an accepted field matches: acceptance leaves none empty. */
  lemma ValidFieldHasValue(field: string, min: nat, max: nat) returns (v: nat)
    requires min <= max && FieldValid(field, min, max)
    ensures min <= v <= max
    ensures forall top :: v <= top ==> FieldMatches(field, v, min, top)
  {
    hide Split, Trim, ParseU32, SplitOnce;
    var part := Trim(Split(field, ',')[0]);
    assert PartValid(part, min, max);
    if part == "*" || IsStep(part) {
      v := min;
    } else {
      match SplitOnce(part, '-')
      case Some((a, b)) => v := ParseU32(a).value;
      case None => v := ParseU32(part).value;
    }
    assert forall top :: v <= top ==> PartMatches(part, v, min, top);
  }

  /** A day of the week that an accepted day-of-week field matches, 7 being Sunday. */
  lemma ValidDowHasDay(field: string) returns (d: nat)
    requires FieldValid(field, 0, 7)
    ensures d < 7 && DowMatches(field, d)
  {
    var v := ValidFieldHasValue(field, 0, 7);
    d := if v == 7 then 0 else v;
  }

  // ---- what the text means ---------------------------------------------

  /** A number as it is written: digits, with zeros or a plus sign in front or not. */
  type Numeral = s: string | IsNumeral(s) witness "0"

  function Value(n: Numeral): nat { Worth(Unsigned(n)) }

  datatype Item = Any | Every(n: Numeral) | Range(a: Numeral, b: Numeral) | Exact(n: Numeral)

  predicate InRange(item: Item, min: nat, max: nat) {
    match item
    case Any => true
    case Every(n) => 0 < Value(n) < 0x1_0000_0000
    case Range(a, b) => min <= Value(a) <= Value(b) <= max
    case Exact(n) => min <= Value(n) <= max
  }

  predicate Means(item: Item, value: nat, min: nat)
    requires item.Every? ==> Value(item.n) != 0
  {
    match item
    case Any => true
    case Every(n) => (value - min) % Value(n) == 0
    case Range(a, b) => Value(a) <= value <= Value(b)
    case Exact(n) => value == Value(n)
  }

  function ItemText(item: Item): string {
    match item
    case Any => "*"
    case Every(n) => "*/" + n
    case Range(a, b) => a + "-" + b
    case Exact(n) => n
  }

  type Items = s: seq<Item> | |s| >= 1 witness [Any]

  function ItemTexts(items: Items): (texts: seq<string>)
    ensures |texts| == |items|
  {
    seq(|items|, i requires 0 <= i < |items| => ItemText(items[i]))
  }

  function FieldText(items: Items): string {
    Join(ItemTexts(items), ',')
  }

  lemma NumeralChars(n: Numeral)
    ensures forall i :: 0 <= i < |n| ==> IsDigit(n[i]) || n[i] == '+'
    ensures n != []
  {
    assert n[0] != '+' ==> forall i :: 0 <= i < |n| ==> n[i] == Unsigned(n)[i];
    assert n[0] == '+' ==> forall i :: 0 < i < |n| ==> n[i] == Unsigned(n)[i - 1];
  }

  lemma ItemTextChars(item: Item)
    ensures ItemText(item) != [] && NoSpace(ItemText(item)) && ',' !in ItemText(item)
  {
    match item
    case Any =>
    case Every(n) => NumeralChars(n);
    case Range(a, b) => NumeralChars(a); NumeralChars(b);
    case Exact(n) => NumeralChars(n);
  }

  lemma TrimNothing(s: string)
    requires NoSpace(s)
    ensures Trim(s) == s
  {}

  /** What the parsers find in the text of an item. */
  lemma ReadItem(item: Item)
    ensures ItemText(item) != []
    ensures var t := ItemText(item);
      match item
      case Any => t == "*"
      case Every(n) => t != "*" && IsStep(t) && t[2..] == n
      case Range(a, b) => t != "*" && !IsStep(t) && SplitOnce(t, '-') == Some((a, b))
      case Exact(n) => t == n && t != "*" && !IsStep(t) && SplitOnce(t, '-') == None
  {
    var t := ItemText(item);
    match item
    case Any =>
    case Every(n) =>
      NumeralChars(n);
      assert t[2..] == n;
    case Range(a, b) =>
      NumeralChars(a);
      assert t[0] == a[0];
      SplitOnceAt(a, '-', b);
    case Exact(n) =>
      NumeralChars(n);
      SplitOnceNever(n, '-');
  }

  lemma NumeralU32(n: Numeral)
    ensures ParseU32(n) == if Value(n) < 0x1_0000_0000 then Some(Value(n)) else None
  {
    U32Means(n);
  }

  lemma ItemTextReads(item: Item, min: nat, max: nat)
    requires max < 0x1_0000_0000
    ensures PartValid(ItemText(item), min, max) <==> InRange(item, min, max)
  {
    hide ItemText, ParseU32, SplitOnce, Worth;
    ReadItem(item);
    match item
    case Any =>
    case Every(n) => NumeralU32(n);
    case Range(a, b) => NumeralU32(a); NumeralU32(b);
    case Exact(n) => NumeralU32(n);
  }

  lemma ItemTextMatches(item: Item, value: nat, min: nat, max: nat, top: nat)
    requires InRange(item, min, max) && min <= value <= top && max < 0x1_0000_0000
    ensures PartMatches(ItemText(item), value, min, top) <==> Means(item, value, min)
  {
    hide ItemText, ParseU32, SplitOnce, Worth;
    ReadItem(item);
    match item
    case Any =>
    case Every(n) => NumeralU32(n);
    case Range(a, b) => NumeralU32(a); NumeralU32(b);
    case Exact(n) => NumeralU32(n);
  }

  /** Whatever is accepted is the text of an item. */
  lemma AcceptedItem(part: string, min: nat, max: nat) returns (item: Item)
    requires PartValid(part, min, max)
    ensures ItemText(item) == part
  {
    hide Worth, ParseU32, SplitOnce;
    if part == "*" {
      item := Any;
    } else if IsStep(part) {
      U32Means(part[2..]);
      item := Every(part[2..]);
      assert part == "*/" + part[2..];
    } else {
      SplitOnceIs(part, '-');
      match SplitOnce(part, '-')
      case Some((a, b)) =>
        U32Means(a);
        U32Means(b);
        item := Range(a, b);
      case None =>
        U32Means(part);
        item := Exact(part);
    }
  }

  /** What an item lets through when it is matched without being accepted first: a range
      is cut to the bounds, and a number may be outside them. */
  predicate Hits(item: Item, value: nat, min: nat, max: nat) {
    match item
    case Any => true
    case Every(n) => 0 < Value(n) < 0x1_0000_0000 && SatSub(value, min) % Value(n) == 0
    case Range(a, b) =>
      && Value(a) < 0x1_0000_0000 && Value(b) < 0x1_0000_0000
      && Value(a) <= value && min <= value && value <= Value(b) && value <= max
    case Exact(n) => value == Value(n) < 0x1_0000_0000
  }

  /** Any string at all matches if and only if it is the text of an item that does. */
  lemma PartMeans(part: string, value: nat, min: nat, max: nat)
    ensures PartMatches(part, value, min, max) <==> exists item :: ItemText(item) == part && Hits(item, value, min, max)
  {
    hide ItemText, ParseU32, SplitOnce, Worth, IsNumeral;
    forall item | ItemText(item) == part
      ensures PartMatches(part, value, min, max) <==> Hits(item, value, min, max)
    {
      ItemHits(item, value, min, max);
    }
    if PartMatches(part, value, min, max) {
      var item := MatchedItem(part, value, min, max);
    }
  }

  lemma ItemHits(item: Item, value: nat, min: nat, max: nat)
    ensures PartMatches(ItemText(item), value, min, max) <==> Hits(item, value, min, max)
  {
    hide ItemText, ParseU32, SplitOnce, Worth;
    ReadItem(item);
    match item
    case Any =>
    case Every(n) => NumeralU32(n);
    case Range(a, b) => NumeralU32(a); NumeralU32(b);
    case Exact(n) => NumeralU32(n);
  }

  lemma MatchedItem(part: string, value: nat, min: nat, max: nat) returns (item: Item)
    requires PartMatches(part, value, min, max)
    ensures ItemText(item) == part
  {
    hide Worth, ParseU32, SplitOnce;
    if part == "*" {
      item := Any;
    } else if IsStep(part) {
      U32Means(part[2..]);
      item := Every(part[2..]);
      assert part == "*/" + part[2..];
    } else {
      SplitOnceIs(part, '-');
      match SplitOnce(part, '-')
      case Some((a, b)) =>
        U32Means(a);
        U32Means(b);
        item := Range(a, b);
      case None =>
        U32Means(part);
        item := Exact(part);
    }
  }

  /** Any list of strings between commas matches if and only if one of them, trimmed, is
      the text of an item that does. */
  lemma ListMeans(parts: seq<string>, value: nat, min: nat, max: nat)
    requires |parts| >= 1 && forall i :: 0 <= i < |parts| ==> ',' !in parts[i]
    ensures FieldMatches(Join(parts, ','), value, min, max)
      <==> exists i, item :: 0 <= i < |parts| && ItemText(item) == Trim(parts[i]) && Hits(item, value, min, max)
  {
    hide PartMatches, ItemText, Trim, Hits, Join;
    SplitOfJoin(parts, ',');
    forall i | 0 <= i < |parts|
      ensures PartMatches(Trim(parts[i]), value, min, max)
        <==> exists item :: ItemText(item) == Trim(parts[i]) && Hits(item, value, min, max)
    {
      PartMeans(Trim(parts[i]), value, min, max);
    }
  }

  lemma FieldParts(items: Items)
    ensures Split(FieldText(items), ',') == ItemTexts(items)
    ensures forall i :: 0 <= i < |items| ==> Trim(ItemTexts(items)[i]) == ItemText(items[i])
  {
    forall i | 0 <= i < |items|
      ensures ',' !in ItemTexts(items)[i] && Trim(ItemTexts(items)[i]) == ItemText(items[i])
    {
      ItemTextChars(items[i]);
      TrimNothing(ItemText(items[i]));
    }
    SplitOfJoin(ItemTexts(items), ',');
  }

  predicate FieldMeans(items: Items, value: nat, min: nat)
    requires forall i :: 0 <= i < |items| && items[i].Every? ==> Value(items[i].n) != 0
  {
    exists i :: 0 <= i < |items| && Means(items[i], value, min)
  }

  predicate FieldInRange(items: Items, min: nat, max: nat) {
    forall i :: 0 <= i < |items| ==> InRange(items[i], min, max)
  }

  lemma FieldTextValid(items: Items, min: nat, max: nat)
    requires max < 0x1_0000_0000
    ensures FieldValid(FieldText(items), min, max) <==> FieldInRange(items, min, max)
  {
    hide InRange, PartValid, FieldText, Trim;
    FieldParts(items);
    forall i | 0 <= i < |items|
      ensures PartValid(Trim(Split(FieldText(items), ',')[i]), min, max) <==> InRange(items[i], min, max)
    {
      ItemTextReads(items[i], min, max);
    }
  }

  lemma FieldTextMatches(items: Items, value: nat, min: nat, max: nat, top: nat)
    requires FieldInRange(items, min, max) && min <= value <= top && max < 0x1_0000_0000
    ensures FieldMatches(FieldText(items), value, min, top) <==> FieldMeans(items, value, min)
  {
    hide PartMatches, FieldText, Trim, Means;
    FieldParts(items);
    forall i | 0 <= i < |items|
      ensures PartMatches(Trim(Split(FieldText(items), ',')[i]), value, min, top) <==> Means(items[i], value, min)
    {
      ItemTextMatches(items[i], value, min, max, top);
    }
  }

  /** Whatever is accepted as a field is the text of a list of items. */
  lemma AcceptedField(field: string, min: nat, max: nat) returns (items: Items)
    requires FieldValid(field, min, max) && NoSpace(field)
    ensures FieldText(items) == field
  {
    hide PartValid, ItemText, Trim;
    var parts := Split(field, ',');
    JoinOfSplit(field, ',');
    items := AcceptedItems(field, parts, min, max);
    assert ItemTexts(items) == parts;
  }

  lemma {:induction false} AcceptedItems(field: string, parts: seq<string>, min: nat, max: nat) returns (items: Items)
    requires |parts| >= 1 && Join(parts, ',') == field && NoSpace(field)
    requires forall i :: 0 <= i < |parts| ==> PartValid(Trim(parts[i]), min, max)
    ensures |items| == |parts| && forall i :: 0 <= i < |parts| ==> ItemText(items[i]) == parts[i]
    decreases |parts|
  {
    hide PartValid, ItemText, Trim;
    assert NoSpace(parts[0]) by {
      assert forall i :: 0 <= i < |parts[0]| ==> parts[0][i] == field[i];
    }
    TrimNothing(parts[0]);
    var item := AcceptedItem(parts[0], min, max);
    items := [item];
    if |parts| > 1 {
      var rest := Join(parts[1..], ',');
      assert field[|parts[0]| + 1..] == rest;
      assert forall i :: 0 <= i < |rest| ==> rest[i] == field[|parts[0]| + 1 + i];
      var more := AcceptedItems(rest, parts[1..], min, max);
      items := [item] + more;
    }
  }

  datatype Expr = Expr(minute: Items, hour: Items, dom: Items, month: Items, dow: Items)

  predicate ExprInRange(e: Expr) {
    FieldInRange(e.minute, 0, 59) && FieldInRange(e.hour, 0, 23) && FieldInRange(e.dom, 1, 31)
    && FieldInRange(e.month, 1, 12) && FieldInRange(e.dow, 0, 7)
  }

  function ExprTexts(e: Expr): seq<string> {
    [FieldText(e.minute), FieldText(e.hour), FieldText(e.dom), FieldText(e.month), FieldText(e.dow)]
  }

  /** White space around the five fields: any, and between them at least one. */
  type Gaps = g: seq<string> | |g| == 6 && (forall i :: 0 <= i < 6 ==> AllSpace(g[i]))
    && (forall i :: 1 <= i < 5 ==> g[i] != [])
    witness ["", " ", " ", " ", " ", ""]

  function ExprText(e: Expr, gaps: Gaps): string {
    Spaced(ExprTexts(e), gaps)
  }

  /** Every field restricts: day of month AND day of week, with 7 a second name of Sunday. */
  predicate ExprMeans(e: Expr, f: Fields)
    requires ExprInRange(e)
  {
    FieldMeans(e.minute, f.minute, 0) && FieldMeans(e.hour, f.hour, 0) && FieldMeans(e.dom, f.dom, 1)
    && FieldMeans(e.month, f.month, 1)
    && (FieldMeans(e.dow, f.dow, 0) || (f.dow == 0 && FieldMeans(e.dow, 7, 0)))
  }

  lemma {:induction false} JoinedItems(texts: seq<string>)
    requires |texts| >= 1
    requires forall i :: 0 <= i < |texts| ==> texts[i] != [] && NoSpace(texts[i])
    ensures Join(texts, ',') != [] && NoSpace(Join(texts, ','))
  {
    if |texts| > 1 {
      JoinedItems(texts[1..]);
    }
  }

  lemma FieldTextChars(items: Items)
    ensures FieldText(items) != [] && NoSpace(FieldText(items))
  {
    forall i | 0 <= i < |items|
      ensures ItemTexts(items)[i] != [] && NoSpace(ItemTexts(items)[i])
    {
      ItemTextChars(items[i]);
    }
    JoinedItems(ItemTexts(items));
  }

  lemma ExprFields(e: Expr, gaps: Gaps)
    ensures SplitWhitespace(ExprText(e, gaps)) == ExprTexts(e)
  {
    hide FieldText;
    FieldTextChars(e.minute);
    FieldTextChars(e.hour);
    FieldTextChars(e.dom);
    FieldTextChars(e.month);
    FieldTextChars(e.dow);
    WordsOfSpaced(ExprTexts(e), gaps);
  }

  /** The text of an expression, with any white space and any zeros in front of its
      numbers, is accepted exactly when all its numbers are in range, and then it
      matches exactly the instants the expression means. */
  lemma ExprTextMeans(e: Expr, gaps: Gaps, f: Fields)
    requires f.minute < 60 && f.hour < 24 && 1 <= f.dom <= 31 && 1 <= f.month <= 12 && f.dow < 7
    ensures IsValid(ExprText(e, gaps)) <==> ExprInRange(e)
    ensures ExprInRange(e) ==> (Matches(ExprText(e, gaps), f) <==> ExprMeans(e, f))
  {
    hide FieldText, FieldMatches, FieldValid, FieldMeans, FieldInRange, ExprText;
    ExprFields(e, gaps);
    FieldTextValid(e.minute, 0, 59);
    FieldTextValid(e.hour, 0, 23);
    FieldTextValid(e.dom, 1, 31);
    FieldTextValid(e.month, 1, 12);
    FieldTextValid(e.dow, 0, 7);
    if ExprInRange(e) {
      FieldTextMatches(e.minute, f.minute, 0, 59, 59);
      FieldTextMatches(e.hour, f.hour, 0, 23, 23);
      FieldTextMatches(e.dom, f.dom, 1, 31, 31);
      FieldTextMatches(e.month, f.month, 1, 12, 12);
      FieldTextMatches(e.dow, f.dow, 0, 7, 6);
      FieldTextMatches(e.dow, 7, 0, 7, 7);
    }
  }

  /** And nothing else is accepted: any accepted string is such a text. */
  lemma AcceptedIsText(expr: string) returns (e: Expr, gaps: Gaps)
    requires IsValid(expr)
    ensures expr == ExprText(e, gaps) && ExprInRange(e)
  {
    hide FieldValid, FieldText, FieldInRange, Spaced, Split;
    var parts := SplitWhitespace(expr);
    var spaces := SpacedOfWords(expr);
    gaps := spaces;
    var minute := AcceptedField(parts[0], 0, 59);
    var hour := AcceptedField(parts[1], 0, 23);
    var dom := AcceptedField(parts[2], 1, 31);
    var month := AcceptedField(parts[3], 1, 12);
    var dow := AcceptedField(parts[4], 0, 7);
    e := Expr(minute, hour, dom, month, dow);
    assert ExprTexts(e) == parts;
    FieldTextValid(minute, 0, 59);
    FieldTextValid(hour, 0, 23);
    FieldTextValid(dom, 1, 31);
    FieldTextValid(month, 1, 12);
    FieldTextValid(dow, 0, 7);
  }
}
