/** Printing a date object by a format, and parsing the text back by the same format. */
module DateFormats {
  import opened Wrappers
  import opened Calendar

  /** The names the labels print. */
  datatype Settings = Settings(
    monthsShort: seq<string>, monthsFull: seq<string>, weekdaysShort: seq<string>, weekdaysFull: seq<string>)

  /** What a piece of a format stands for: one of the formatting labels, or text. */
  datatype Label = D | DD | DDD | DDDD | M | MM | MMM | MMMM | YY | YYYY | Text

  function LabelOf(s: string): Label {
    if s == "d" then D else if s == "dd" then DD else if s == "ddd" then DDD else if s == "dddd" then DDDD
    else if s == "m" then M else if s == "mm" then MM else if s == "mmm" then MMM else if s == "mmmm" then MMMM
    else if s == "yy" then YY else if s == "yyyy" then YYYY else Text
  }

  // Splitting a format

  function Run(f: string, i: nat, c: char, n: nat): (r: nat)
    ensures r <= n && (i <= |f| ==> i + r <= |f|)
    decreases n
  {
    if n > 0 && i < |f| && f[i] == c then 1 + Run(f, i + 1, c, n - 1) else 0
  }

  predicate IsLineEnd(c: char) {
    c == '\n' || c == '\r' || c == '\U{2028}' || c == '\U{2029}'
  }

  /** The length of the label or escape that starts at `i`; 0 when none does. */
  function TokenLength(f: string, i: nat): (r: nat)
    requires i < |f|
    ensures i + r <= |f|
  {
    if f[i] == 'd' || f[i] == 'm' then Run(f, i, f[i], 4)
    else if f[i] == 'y' then (var k := Run(f, i, 'y', 4); if k == 4 then 4 else if k >= 2 then 2 else 0)
    else if f[i] == '!' && i + 1 < |f| && !IsLineEnd(f[i + 1]) then 2
    else 0
  }

  /** The pieces of `f` from `i` on, text and labels by turns; `from` is where the current text began. */
  function SplitFrom(f: string, from: nat, i: nat): (r: seq<string>)
    requires from <= i <= |f|
    decreases |f| - i
  {
    if i == |f| then [f[from..]]
    else
      var k := TokenLength(f, i);
      if k == 0 then SplitFrom(f, from, i + 1)
      else [f[from..i], f[i..i + k]] + SplitFrom(f, i + k, i + k)
  }

  function ToArray(format: string): seq<string> {
    SplitFrom(format, 0, 0)
  }

  function Join(pieces: seq<string>): string {
    if pieces == [] then "" else pieces[0] + Join(pieces[1..])
  }

  lemma JoinTwo(a: string, b: string, rest: seq<string>)
    ensures Join([a, b] + rest) == a + (b + Join(rest))
  {
    var all := [a, b] + rest;
    assert all[1..] == [b] + rest;
    assert all[1..][1..] == rest;
  }

  lemma {:induction false} SplitKeepsText(f: string, from: nat, i: nat)
    requires from <= i <= |f|
    ensures Join(SplitFrom(f, from, i)) == f[from..]
    decreases |f| - i
  {
    hide TokenLength;
    if i == |f| {
      assert Join([f[from..]]) == f[from..] + Join([]);
    } else {
      var k := TokenLength(f, i);
      if k == 0 {
        SplitKeepsText(f, from, i + 1);
      } else {
        SplitKeepsText(f, i + k, i + k);
        JoinTwo(f[from..i], f[i..i + k], SplitFrom(f, i + k, i + k));
        assert f[from..] == f[from..i] + (f[i..i + k] + f[i + k..]);
      }
    }
  }

  /** Splitting a format loses nothing of it. */
  lemma SplittingIsLossless(format: string)
    ensures Join(ToArray(format)) == format
  {
    SplitKeepsText(format, 0, 0);
  }

  /** Text that holds no label: no `d`, no `m` and no two `y` in a row. */
  predicate NoLabels(s: string) {
    && (forall i :: 0 <= i < |s| ==> s[i] != 'd' && s[i] != 'm')
    && (forall i :: 0 <= i < |s| - 1 ==> !(s[i] == 'y' && s[i + 1] == 'y'))
  }

  lemma LabelsAreTokens(f: string, i: nat)
    requires i < |f|
    ensures f[i] == 'd' || f[i] == 'm' ==> TokenLength(f, i) > 0
    ensures i + 1 < |f| && f[i] == 'y' && f[i + 1] == 'y' ==> TokenLength(f, i) > 0
  {
    if i + 1 < |f| && f[i] == 'y' && f[i + 1] == 'y' {
      assert Run(f, i + 1, 'y', 3) >= 1;
    }
  }

  lemma NoTokenHere(f: string, from: nat, i: nat)
    requires from <= i < |f| && TokenLength(f, i) == 0 && NoLabels(f[from..i])
    requires from < i ==> TokenLength(f, i - 1) == 0
    ensures NoLabels(f[from..i + 1])
  {
    hide TokenLength;
    var s := f[from..i + 1];
    LabelsAreTokens(f, i);
    if from < i {
      LabelsAreTokens(f, i - 1);
    }
    forall j | 0 <= j < |s| ensures s[j] != 'd' && s[j] != 'm' && (j < |s| - 1 ==> !(s[j] == 'y' && s[j + 1] == 'y')) {
      if j < i - from {
        assert s[j] == f[from..i][j];
        if j < i - from - 1 {
          assert s[j + 1] == f[from..i][j + 1];
        }
      }
    }
  }

  lemma TokensAreLabels(f: string, i: nat)
    requires i < |f| && TokenLength(f, i) > 0
    ensures var t := f[i..i + TokenLength(f, i)]; LabelOf(t) != Text || (|t| == 2 && t[0] == '!')
  {
    if f[i] == 'd' || f[i] == 'm' {
      RunRepeats(f, i, f[i], 4);
    } else if f[i] == 'y' {
      RunRepeats(f, i, f[i], 4);
    }
  }

  lemma {:induction false} RunRepeats(f: string, i: nat, c: char, n: nat)
    requires i <= |f|
    ensures forall j :: i <= j < i + Run(f, i, c, n) ==> f[j] == c
    decreases n
  {
    if n > 0 && i < |f| && f[i] == c {
      RunRepeats(f, i + 1, c, n - 1);
    }
  }

  lemma {:induction false} SplitAlternates(f: string, from: nat, i: nat, k: nat)
    requires from <= i <= |f| && NoLabels(f[from..i]) && (from < i ==> TokenLength(f, i - 1) == 0)
    requires k < |SplitFrom(f, from, i)|
    ensures var piece := SplitFrom(f, from, i)[k];
      if k % 2 == 0 then NoLabels(piece) else LabelOf(piece) != Text || (|piece| == 2 && piece[0] == '!')
    decreases |f| - i
  {
    hide TokenLength, NoLabels, LabelOf;
    if i < |f| {
      var n := TokenLength(f, i);
      if n == 0 {
        NoTokenHere(f, from, i);
        SplitAlternates(f, from, i + 1, k);
      } else {
        TokensAreLabels(f, i);
        if k >= 2 {
          EmptyText();
          assert f[i + n..i + n] == "";
          SplitAlternates(f, i + n, i + n, k - 2);
        }
      }
    } else {
      assert f[from..i] == f[from..];
    }
  }

  lemma EmptyText()
    ensures NoLabels("")
  {
  }

  /** The pieces of a format are text without labels and labels or escapes by turns, beginning with text. */
  lemma PiecesAlternate(format: string, k: nat)
    requires k < |ToArray(format)|
    ensures var piece := ToArray(format)[k];
      if k % 2 == 0 then NoLabels(piece) else LabelOf(piece) != Text || (|piece| == 2 && piece[0] == '!')
  {
    assert format[0..0] == "";
    SplitAlternates(format, 0, 0, k);
  }

  // Numbers and words as text

  predicate IsDigit(c: char) {
    '0' <= c <= '9'
  }

  predicate IsWord(c: char) {
    IsDigit(c) || 'a' <= c <= 'z' || 'A' <= c <= 'Z' || c == '_'
  }

  /** The classes of characters by code points. */
  lemma CharacterClasses(c: char)
    ensures IsDigit(c) <==> 48 <= c as int <= 57
    ensures IsWord(c) <==> 48 <= c as int <= 57 || 65 <= c as int <= 90 || 97 <= c as int <= 122 || c as int == 95
  {
  }

  function DigitChar(n: int): (c: char)
    requires 0 <= n < 10
    ensures IsDigit(c)
  {
    "0123456789"[n]
  }

  function DigitValue(c: char): int {
    c as int - '0' as int
  }

  function Decimal(n: int): string
    decreases if n < 0 then 1 - n else n
  {
    if n < 0 then "-" + Decimal(-n)
    else if n < 10 then [DigitChar(n)]
    else Decimal(n / 10) + [DigitChar(n % 10)]
  }

  function Lead(n: int): string {
    if n < 10 then "0" + Decimal(n) else Decimal(n)
  }

  predicate AllDigits(s: string) {
    forall i :: 0 <= i < |s| ==> IsDigit(s[i])
  }

  function DigitsValue(s: string): int {
    if s == "" then 0 else 10 * DigitsValue(s[..|s| - 1]) + DigitValue(s[|s| - 1])
  }

  lemma OneDigitMore(s: string, c: char)
    requires AllDigits(s) && IsDigit(c)
    ensures AllDigits(s + [c]) && DigitsValue(s + [c]) == 10 * DigitsValue(s) + DigitValue(c)
  {
    assert (s + [c])[..|s + [c]| - 1] == s;
  }

  lemma {:induction false} DecimalValue(n: int)
    requires n >= 0
    ensures |Decimal(n)| >= 1 && AllDigits(Decimal(n)) && DigitsValue(Decimal(n)) == n
  {
    hide DigitsValue, DigitValue, AllDigits;
    DigitCharValue(n % 10);
    if n >= 10 {
      DecimalValue(n / 10);
      OneDigitMore(Decimal(n / 10), DigitChar(n % 10));
    } else {
      NoDigits();
      OneDigitMore("", DigitChar(n));
      assert "" + [DigitChar(n)] == [DigitChar(n)];
    }
  }

  lemma NoDigits()
    ensures AllDigits("") && DigitsValue("") == 0
  {
  }

  lemma DigitCharValue(n: int)
    requires 0 <= n < 10
    ensures DigitValue(DigitChar(n)) == n
  {
  }

  lemma NegativeDecimal(n: int)
    requires n < 0
    ensures var s := Decimal(n);
      |s| > 1 && s[0] == '-' && AllDigits(s[1..]) && DigitsValue(s[1..]) == -n
  {
    hide AllDigits, DigitsValue;
    DecimalValue(-n);
    assert Decimal(n)[1..] == Decimal(-n);
  }

  lemma DecimalLength(n: int)
    ensures 0 <= n < 10 ==> |Decimal(n)| == 1
    ensures 10 <= n < 100 ==> |Decimal(n)| == 2
    ensures 1000 <= n < 10000 ==> |Decimal(n)| == 4
  {
    if 1000 <= n < 10000 {
      assert |Decimal(n / 1000)| == 1;
      assert n / 10 / 10 / 10 == n / 1000;
      assert |Decimal(n / 10 / 10)| == 2;
      assert |Decimal(n / 10)| == 3;
    }
  }

  lemma LeadValue(n: int)
    requires 0 <= n < 100
    ensures |Lead(n)| == 2 && AllDigits(Lead(n)) && DigitsValue(Lead(n)) == n
  {
    DecimalValue(n);
    DecimalLength(n);
    if n < 10 {
      var s := Lead(n);
      assert s[..1] == "0" && s[..1][..0] == "";
      assert DigitsValue("0") == 0;
      assert s[1] == DigitChar(n);
      DigitCharValue(n);
    }
  }

  function WordPrefix(s: string): string {
    if s == "" || !IsWord(s[0]) then "" else [s[0]] + WordPrefix(s[1..])
  }

  function FirstWord(s: string): Option<string> {
    if s == "" then None
    else if IsWord(s[0]) then Some(WordPrefix(s))
    else FirstWord(s[1..])
  }

  // Printing

  function Nth(names: seq<string>, i: int): string {
    if 0 <= i < |names| then names[i] else ""
  }

  function OrLabel(s: string, piece: string): string {
    if s == "" then Unescaped(piece) else s
  }

  function Unescaped(piece: string): string {
    if piece != "" && piece[0] == '!' then piece[1..] else piece
  }

  function PrintPiece(st: Settings, o: DateObject, piece: string): string {
    match LabelOf(piece)
    case D => Decimal(o.date)
    case DD => Lead(o.date)
    case DDD => OrLabel(Nth(st.weekdaysShort, o.day), piece)
    case DDDD => OrLabel(Nth(st.weekdaysFull, o.day), piece)
    case M => Decimal(o.month + 1)
    case MM => Lead(o.month + 1)
    case MMM => OrLabel(Nth(st.monthsShort, o.month), piece)
    case MMMM => OrLabel(Nth(st.monthsFull, o.month), piece)
    case YY => OrLabel(if |Decimal(o.year)| < 2 then "" else Decimal(o.year)[2..], piece)
    case YYYY => if o.year == 0 then piece else Decimal(o.year)
    case Text => Unescaped(piece)
  }

  function PrintPieces(st: Settings, o: DateObject, pieces: seq<string>): string {
    if pieces == [] then "" else PrintPiece(st, o, pieces[0]) + PrintPieces(st, o, pieces[1..])
  }

  function ToString(st: Settings, format: string, o: DateObject): string {
    PrintPieces(st, o, ToArray(format))
  }

  // Parsing

  /** A field of the parsing object: text cut from the value, or the number of a month name. */
  datatype Field = Str(s: string) | Num(n: int)

  type Fields = map<Label, Field>

  /** The field, unless it is missing, empty or zero. */
  function Truthy(fields: Fields, l: Label): Option<Field> {
    if l in fields && fields[l] != Str("") && fields[l] != Num(0) then Some(fields[l]) else None
  }

  function Either(fields: Fields, one: Label, two: Label): Option<Field> {
    if Truthy(fields, one).Some? then Truthy(fields, one)
    else if two in fields then Some(fields[two]) else None
  }

  /** The number a field converts to. */
  function Number(f: Option<Field>): Option<int> {
    match f
    case Some(Num(n)) => Some(n)
    case Some(Str(s)) => if s != "" && AllDigits(s) then Some(DigitsValue(s)) else None
    case None => None
  }

  function IndexOf(names: seq<string>, w: string): int {
    if names == [] then -1
    else if names[0] == w then 0
    else var k := IndexOf(names[1..], w); if k < 0 then -1 else k + 1
  }

  function Digits(value: string): nat {
    if |value| > 1 && IsDigit(value[1]) then 2 else 1
  }

  function Names(st: Settings, l: Label): seq<string> {
    match l
    case DDD => st.weekdaysShort
    case DDDD => st.weekdaysFull
    case MMM => st.monthsShort
    case MMMM => st.monthsFull
    case _ => []
  }

  /** How much of a value a piece takes; matching a word fails on a value that has none. */
  function PieceLength(piece: string, value: string): Option<nat> {
    var l := LabelOf(piece);
    if l == Text then Some(|Unescaped(piece)|)
    else if value == "" then Some(0)
    else match l
      case D => Some(Digits(value))
      case M => Some(Digits(value))
      case DD => Some(2)
      case MM => Some(2)
      case YY => Some(2)
      case YYYY => Some(4)
      case _ => if FirstWord(value).Some? then Some(|FirstWord(value).value|) else None
  }

  /** A month name at the front of the value sets the month number, unless one is known. */
  function NoteMonth(st: Settings, fields: Fields, l: Label, value: string): Fields {
    if (l == MMM || l == MMMM) && FirstWord(value).Some? && Truthy(fields, MM).None? && Truthy(fields, M).None?
    then fields[M := Num(IndexOf(Names(st, l), FirstWord(value).value) + 1)]
    else fields
  }

  function Min(a: nat, b: nat): nat {
    if a < b then a else b
  }

  function ParsePieces(st: Settings, pieces: seq<string>, value: string, fields: Fields): Option<Fields> {
    if pieces == [] then Some(fields)
    else
      var l, length := LabelOf(pieces[0]), PieceLength(pieces[0], value);
      if length.None? then None
      else
        var n := Min(length.value, |value|);
        var noted := NoteMonth(st, fields, l, value);
        ParsePieces(st, pieces[1..], value[n..], if l == Text then noted else noted[l := Str(value[..n])])
  }

  /** The year, month (from 0) and date that a parse yields. */
  datatype Parsed = Parsed(year: Option<int>, month: Option<int>, date: Option<int>)

  function Harvest(fields: Fields): Parsed {
    var month := Number(Either(fields, MM, M));
    Parsed(Number(Either(fields, YYYY, YY)),
           if month.Some? then Some(month.value - 1) else None,
           Number(Either(fields, DD, D)))
  }

  /** How a parse ends: the empty value is given back, the exception of a missing word is thrown, or a date is read. */
  datatype Outcome = AsItIs | Thrown | Read(parsed: Parsed)

  function ParseSpec(st: Settings, format: string, value: string): Outcome {
    if value == "" then AsItIs
    else
      var fields := ParsePieces(st, ToArray(format), value, map[]);
      if fields.Some? then Read(Harvest(fields.value)) else Thrown
  }

  /** Parses a value by a format, piece by piece. */
  method Parse(st: Settings, format: string, value: string) returns (r: Outcome)
    ensures r == ParseSpec(st, format, value)
    ensures value == "" <==> r == AsItIs
  {
    hide ToArray, LabelOf, PieceLength, NoteMonth, Harvest;
    if value == "" {
      return AsItIs;
    }
    var pieces := ToArray(format);
    var parsingObject: Fields, rest := map[], value;
    var k := 0;
    while k < |pieces|
      invariant 0 <= k <= |pieces|
      invariant ParsePieces(st, pieces, value, map[]) == ParsePieces(st, pieces[k..], rest, parsingObject)
    {
      var l := LabelOf(pieces[k]);
      var formatLength := PieceLength(pieces[k], rest);
      assert pieces[k..][0] == pieces[k] && pieces[k..][1..] == pieces[k + 1..];
      if formatLength.None? {
        return Thrown;
      }
      var n := Min(formatLength.value, |rest|);
      parsingObject := NoteMonth(st, parsingObject, l, rest);
      if l != Text {
        parsingObject := parsingObject[l := Str(rest[..n])];
      }
      rest := rest[n..];
      k := k + 1;
    }
    return Read(Harvest(parsingObject));
  }

  // Print, then parse

  predicate IsName(s: string) {
    s != "" && forall i :: 0 <= i < |s| ==> IsWord(s[i])
  }

  predicate NamesFit(st: Settings, l: Label) {
    && |Names(st, l)| == (if l == DDD || l == DDDD then 7 else 12)
    && (forall i :: 0 <= i < |Names(st, l)| ==> IsName(Names(st, l)[i]))
    && (l == MMM || l == MMMM ==> forall i, j :: 0 <= i < j < |Names(st, l)| ==> Names(st, l)[i] != Names(st, l)[j])
  }

  predicate IsWordLabel(l: Label) {
    l == DDD || l == DDDD || l == MMM || l == MMMM
  }

  /** The names that can be read back: seven weekdays, or twelve months that differ, of word characters. */
  lemma NamesFitExactly(st: Settings, l: Label)
    requires IsWordLabel(l)
    ensures
      var names := if l == DDD then st.weekdaysShort else if l == DDDD then st.weekdaysFull
                   else if l == MMM then st.monthsShort else st.monthsFull;
      NamesFit(st, l) <==>
        && |names| == (if l in {DDD, DDDD} then 7 else 12)
        && (forall i :: 0 <= i < |names| ==> names[i] != "" && forall k :: 0 <= k < |names[i]| ==> IsWord(names[i][k]))
        && (l in {MMM, MMMM} ==> forall i, j :: 0 <= i < j < |names| ==> names[i] != names[j])
  {
    hide IsWord;
    forall i | 0 <= i < |Names(st, l)|
      ensures IsName(Names(st, l)[i]) <==>
        Names(st, l)[i] != "" && forall k :: 0 <= k < |Names(st, l)[i]| ==> IsWord(Names(st, l)[i][k])
    {
    }
  }

  /** Whatever the pieces print does not begin with a digit. */
  predicate NoDigitNext(st: Settings, pieces: seq<string>) {
    pieces == [] ||
    var l, text := LabelOf(pieces[0]), Unescaped(pieces[0]);
    if l == Text then (if text == "" then NoDigitNext(st, pieces[1..]) else !IsDigit(text[0]))
    else IsWordLabel(l) && forall i :: 0 <= i < |Names(st, l)| ==> Names(st, l)[i] != "" && !IsDigit(Names(st, l)[i][0])
  }

  /** Whatever the pieces print does not begin with a word character. */
  predicate NoWordNext(pieces: seq<string>) {
    pieces == [] ||
    var l, text := LabelOf(pieces[0]), Unescaped(pieces[0]);
    l == Text && if text == "" then NoWordNext(pieces[1..]) else !IsWord(text[0])
  }

  /** Text that is a property of every formats object is not printed as it stands. */
  const RESERVED: set<string> := {
    "toArray", "toString", "constructor", "hasOwnProperty", "isPrototypeOf", "propertyIsEnumerable",
    "toLocaleString", "valueOf", "__proto__", "__defineGetter__", "__defineSetter__", "__lookupGetter__",
    "__lookupSetter__" }

  /** Every piece can be told from what follows it. */
  predicate Separated(st: Settings, pieces: seq<string>) {
    pieces == [] ||
    var l := LabelOf(pieces[0]);
    && (l == Text ==> pieces[0] !in RESERVED)
    && (l == D || l == M ==> NoDigitNext(st, pieces[1..]))
    && (IsWordLabel(l) ==> NamesFit(st, l) && NoWordNext(pieces[1..]))
    && Separated(st, pieces[1..])
  }

  predicate Has(pieces: seq<string>, l: Label) {
    exists i :: 0 <= i < |pieces| && LabelOf(pieces[i]) == l
  }

  /** A format with a full year, a month and a date whose pieces can be told apart. */
  predicate WellFormed(st: Settings, format: string) {
    var pieces := ToArray(format);
    && Separated(st, pieces) && Has(pieces, YYYY)
    && (Has(pieces, M) || Has(pieces, MM) || Has(pieces, MMM) || Has(pieces, MMMM))
    && (Has(pieces, D) || Has(pieces, DD))
  }

  ghost predicate Printable(o: DateObject) {
    1000 <= o.year <= 9999 && 0 <= o.month < 12 && 1 <= o.date <= 31 && 0 <= o.day < 7
  }

  lemma {:induction false} PrintStartsWithNoDigit(st: Settings, o: DateObject, pieces: seq<string>)
    requires Printable(o) && Separated(st, pieces) && NoDigitNext(st, pieces)
    ensures PrintPieces(st, o, pieces) != "" ==> !IsDigit(PrintPieces(st, o, pieces)[0])
    decreases |pieces|
  {
    if pieces != [] && LabelOf(pieces[0]) == Text && Unescaped(pieces[0]) == "" {
      PrintStartsWithNoDigit(st, o, pieces[1..]);
      assert PrintPieces(st, o, pieces) == PrintPieces(st, o, pieces[1..]);
    }
  }

  lemma {:induction false} PrintStartsWithNoWord(st: Settings, o: DateObject, pieces: seq<string>)
    requires NoWordNext(pieces)
    ensures PrintPieces(st, o, pieces) != "" ==> !IsWord(PrintPieces(st, o, pieces)[0])
    decreases |pieces|
  {
    if pieces != [] && Unescaped(pieces[0]) == "" {
      PrintStartsWithNoWord(st, o, pieces[1..]);
      assert PrintPieces(st, o, pieces) == PrintPieces(st, o, pieces[1..]);
    }
  }

  lemma {:induction false} WordEnds(w: string, rest: string)
    requires forall i :: 0 <= i < |w| ==> IsWord(w[i])
    requires rest != "" ==> !IsWord(rest[0])
    ensures WordPrefix(w + rest) == w
    decreases |w|
  {
    if w != "" {
      assert (w + rest)[1..] == w[1..] + rest;
      WordEnds(w[1..], rest);
    } else {
      assert w + rest == rest;
    }
  }

  lemma {:induction false} IndexOfName(names: seq<string>, i: nat)
    requires i < |names| && forall j, k :: 0 <= j < k < |names| ==> names[j] != names[k]
    ensures IndexOf(names, names[i]) == i
    decreases |names|
  {
    if i > 0 {
      assert names[1..][i - 1] == names[i];
      IndexOfName(names[1..], i - 1);
    }
  }

  /** A date or month number is cut off whole when no digit follows. */
  lemma DigitsOfNumber(n: int, rest: string)
    requires 1 <= n < 100 && (rest != "" ==> !IsDigit(rest[0]))
    ensures Digits(Decimal(n) + rest) == |Decimal(n)|
  {
    DecimalLength(n);
    DecimalValue(n);
    var value := Decimal(n) + rest;
    if n >= 10 {
      assert value[1] == Decimal(n)[1];
    }
  }

  lemma NumberPieces(st: Settings, o: DateObject, piece: string, rest: string)
    requires Printable(o)
    requires var l := LabelOf(piece); l == D || l == M || l == DD || l == MM || l == YY || l == YYYY
    requires LabelOf(piece) == D || LabelOf(piece) == M ==> rest != "" ==> !IsDigit(rest[0])
    ensures PieceLength(piece, PrintPiece(st, o, piece) + rest) == Some(|PrintPiece(st, o, piece)|)
    ensures PrintPiece(st, o, piece) != ""
  {
    hide LabelOf, Decimal, Digits;
    var l := LabelOf(piece);
    DecimalLength(o.year);
    if l == D {
      DigitsOfNumber(o.date, rest);
      DecimalLength(o.date);
    } else if l == M {
      DigitsOfNumber(o.month + 1, rest);
      DecimalLength(o.month + 1);
    } else if l == DD {
      LeadValue(o.date);
    } else if l == MM {
      LeadValue(o.month + 1);
    }
  }

  lemma WordPieces(st: Settings, o: DateObject, piece: string, rest: string)
    requires Printable(o) && IsWordLabel(LabelOf(piece)) && NamesFit(st, LabelOf(piece))
    requires rest != "" ==> !IsWord(rest[0])
    ensures var w := PrintPiece(st, o, piece);
      && w == Names(st, LabelOf(piece))[if LabelOf(piece) == DDD || LabelOf(piece) == DDDD then o.day else o.month]
      && w != "" && FirstWord(w + rest) == Some(w) && PieceLength(piece, w + rest) == Some(|w|)
  {
    hide LabelOf;
    var l := LabelOf(piece);
    var names := Names(st, l);
    var w := PrintPiece(st, o, piece);
    assert IsName(names[if l == DDD || l == DDDD then o.day else o.month]);
    WordEnds(w, rest);
  }

  /** The fields of the parsing object that were read off the print of `o`. */
  ghost predicate ReadsOff(o: DateObject, fields: Fields) {
    && (YYYY in fields ==> fields[YYYY] == Str(Decimal(o.year)))
    && (MM in fields ==> fields[MM] == Str(Lead(o.month + 1)))
    && (M in fields ==> fields[M] == Str(Decimal(o.month + 1)) || fields[M] == Num(o.month + 1))
    && (DD in fields ==> fields[DD] == Str(Lead(o.date)))
    && (D in fields ==> fields[D] == Str(Decimal(o.date)))
  }

  function MonthKnown(fields: Fields): bool {
    M in fields || MM in fields
  }

  /** The parsing object after a piece: what a piece adds to it. */
  function After(st: Settings, piece: string, value: string, n: nat, fields: Fields): Fields
    requires n <= |value|
  {
    var l := LabelOf(piece);
    var noted := NoteMonth(st, fields, l, value);
    if l == Text then noted else noted[l := Str(value[..n])]
  }

  lemma ReadableFieldsAreTruthy(o: DateObject, fields: Fields)
    requires Printable(o) && ReadsOff(o, fields)
    ensures Truthy(fields, M).Some? == (M in fields) && Truthy(fields, MM).Some? == (MM in fields)
    ensures Truthy(fields, D).Some? == (D in fields) && Truthy(fields, DD).Some? == (DD in fields)
    ensures Truthy(fields, YYYY).Some? == (YYYY in fields)
  {
    hide Decimal, Lead;
    DecimalValue(o.year);
    DecimalValue(o.month + 1);
    DecimalValue(o.date);
    LeadValue(o.month + 1);
    LeadValue(o.date);
  }

  /** Reading a piece off its own print keeps the fields right and adds the piece's field. */
  lemma PieceReadsOff(st: Settings, o: DateObject, piece: string, rest: string, fields: Fields)
    requires Printable(o) && ReadsOff(o, fields)
    requires IsWordLabel(LabelOf(piece)) ==> NamesFit(st, LabelOf(piece)) && (rest != "" ==> !IsWord(rest[0]))
    ensures var w := PrintPiece(st, o, piece);
      var after := After(st, piece, w + rest, |w|, fields);
      && ReadsOff(o, after) && fields.Keys <= after.Keys
      && (LabelOf(piece) != Text ==> LabelOf(piece) in after)
      && (LabelOf(piece) == MMM || LabelOf(piece) == MMMM ==> MonthKnown(after))
  {
    hide LabelOf, Decimal, Lead, IndexOf, FirstWord, WordPrefix;
    var l, w := LabelOf(piece), PrintPiece(st, o, piece);
    assert (w + rest)[..|w|] == w;
    ReadableFieldsAreTruthy(o, fields);
    if l == MMM || l == MMMM {
      WordPieces(st, o, piece, rest);
      IndexOfName(Names(st, l), o.month);
    }
  }

  /** A piece takes exactly its own print. */
  lemma PieceTakesItsPrint(st: Settings, o: DateObject, pieces: seq<string>)
    requires pieces != [] && Printable(o) && Separated(st, pieces)
    ensures var w, rest := PrintPiece(st, o, pieces[0]), PrintPieces(st, o, pieces[1..]);
      && PieceLength(pieces[0], w + rest) == Some(|w|)
      && (IsWordLabel(LabelOf(pieces[0])) ==> NamesFit(st, LabelOf(pieces[0])) && (rest != "" ==> !IsWord(rest[0])))
  {
    hide LabelOf, PrintPieces, NamesFit, NoWordNext, NoDigitNext;
    var l, rest := LabelOf(pieces[0]), PrintPieces(st, o, pieces[1..]);
    if IsWordLabel(l) {
      PrintStartsWithNoWord(st, o, pieces[1..]);
      WordPieces(st, o, pieces[0], rest);
    } else if l != Text {
      if l == D || l == M {
        PrintStartsWithNoDigit(st, o, pieces[1..]);
      }
      NumberPieces(st, o, pieces[0], rest);
    }
  }

  /** Parsing the print of separated pieces reads every one of their fields off the date. */
  lemma {:induction false} ParseReadsOffPrint(st: Settings, o: DateObject, pieces: seq<string>, fields: Fields)
    returns (r: Fields)
    requires Printable(o) && Separated(st, pieces) && ReadsOff(o, fields)
    ensures ParsePieces(st, pieces, PrintPieces(st, o, pieces), fields) == Some(r)
    ensures ReadsOff(o, r) && fields.Keys <= r.Keys
    ensures forall i :: 0 <= i < |pieces| && LabelOf(pieces[i]) != Text ==> LabelOf(pieces[i]) in r
    ensures Has(pieces, MMM) || Has(pieces, MMMM) ==> MonthKnown(r)
    decreases |pieces|
  {
    hide LabelOf, PieceLength, NoteMonth, ReadsOff, PrintPiece, NamesFit;
    if pieces == [] {
      r := fields;
    } else {
      var w, rest := PrintPiece(st, o, pieces[0]), PrintPieces(st, o, pieces[1..]);
      PieceTakesItsPrint(st, o, pieces);
      PieceReadsOff(st, o, pieces[0], rest, fields);
      var after := After(st, pieces[0], w + rest, |w|, fields);
      r := ParseReadsOffPrint(st, o, pieces[1..], after);
      assert (w + rest)[|w|..] == rest;
      FieldsOfAll(pieces, r, after);
    }
  }

  lemma FieldsOfAll(pieces: seq<string>, r: Fields, after: Fields)
    requires pieces != [] && after.Keys <= r.Keys
    requires LabelOf(pieces[0]) != Text ==> LabelOf(pieces[0]) in after
    requires LabelOf(pieces[0]) == MMM || LabelOf(pieces[0]) == MMMM ==> MonthKnown(after)
    requires forall i :: 0 <= i < |pieces[1..]| && LabelOf(pieces[1..][i]) != Text ==> LabelOf(pieces[1..][i]) in r
    requires Has(pieces[1..], MMM) || Has(pieces[1..], MMMM) ==> MonthKnown(r)
    ensures forall i :: 0 <= i < |pieces| && LabelOf(pieces[i]) != Text ==> LabelOf(pieces[i]) in r
    ensures Has(pieces, MMM) || Has(pieces, MMMM) ==> MonthKnown(r)
  {
    hide LabelOf;
    forall i | 0 <= i < |pieces| && LabelOf(pieces[i]) != Text
      ensures LabelOf(pieces[i]) in r
      ensures LabelOf(pieces[i]) == MMM || LabelOf(pieces[i]) == MMMM ==> MonthKnown(r)
    {
      if i > 0 {
        assert pieces[1..][i - 1] == pieces[i];
      }
    }
  }

  lemma HarvestReadsOff(o: DateObject, fields: Fields)
    requires Printable(o) && ReadsOff(o, fields)
    requires YYYY in fields && MonthKnown(fields) && (D in fields || DD in fields)
    ensures Harvest(fields) == Parsed(Some(o.year), Some(o.month), Some(o.date))
  {
    hide Decimal, Lead, DigitsValue, AllDigits;
    ReadableFieldsAreTruthy(o, fields);
    DecimalValue(o.year);
    DecimalValue(o.month + 1);
    DecimalValue(o.date);
    LeadValue(o.month + 1);
    LeadValue(o.date);
  }

  lemma FieldsSuffice(st: Settings, format: string, r: Fields)
    requires WellFormed(st, format)
    requires var pieces := ToArray(format);
      && (forall i :: 0 <= i < |pieces| && LabelOf(pieces[i]) != Text ==> LabelOf(pieces[i]) in r)
      && (Has(pieces, MMM) || Has(pieces, MMMM) ==> MonthKnown(r))
    ensures YYYY in r && MonthKnown(r) && (D in r || DD in r)
  {
    hide ToArray, LabelOf, Separated;
  }

  lemma FormatIsSeparated(st: Settings, format: string)
    requires WellFormed(st, format)
    ensures Separated(st, ToArray(format))
  {
    hide Has, ToArray, Separated;
  }

  lemma DaysArePrintable(y: int, m: int, d: int)
    requires 1000 <= y <= 9999 && 0 <= m < 12 && 1 <= d <= DaysInMonth(y, m)
    ensures var o := Create(y, m, d); Printable(o) && o.year == y && o.month == m && o.date == d
  {
    hide FromPick, DaysInMonth, MakeDay;
    ShortMonths(y, m);
    CreateProper(y, m, d);
  }

  /** For every well-formed format and every day of the years 1000 to 9999, parsing undoes printing. */
  lemma ParseUndoesPrint(st: Settings, format: string, y: int, m: int, d: int)
    requires WellFormed(st, format) && 1000 <= y <= 9999 && 0 <= m < 12 && 1 <= d <= DaysInMonth(y, m)
    ensures ParseSpec(st, format, ToString(st, format, Create(y, m, d))) == Read(Parsed(Some(y), Some(m), Some(d)))
  {
    hide Create, ReadsOff, Harvest, ToArray, LabelOf, ParsePieces, PrintPieces, Separated, MonthKnown, WellFormed,
      Printable, Has, DaysInMonth;
    var o, pieces := Create(y, m, d), ToArray(format);
    DaysArePrintable(y, m, d);
    FormatIsSeparated(st, format);
    NothingReadYet(o);
    var fields := ParseReadsOffPrint(st, o, pieces, map[]);
    FieldsSuffice(st, format, fields);
    HarvestReadsOff(o, fields);
    YearIsPrinted(st, o, format);
  }

  /** A format with a full year prints something. */
  lemma YearIsPrinted(st: Settings, o: DateObject, format: string)
    requires WellFormed(st, format) && Printable(o)
    ensures ToString(st, format, o) != ""
  {
    hide ToArray, Separated, PrintPieces;
    var i :| 0 <= i < |ToArray(format)| && LabelOf(ToArray(format)[i]) == YYYY;
    PieceIsPrinted(st, o, ToArray(format), i);
  }

  lemma {:induction false} PieceIsPrinted(st: Settings, o: DateObject, pieces: seq<string>, i: nat)
    requires i < |pieces| && LabelOf(pieces[i]) == YYYY && Printable(o)
    ensures PrintPieces(st, o, pieces) != ""
    decreases |pieces|
  {
    if i > 0 {
      assert pieces[1..][i - 1] == pieces[i];
      PieceIsPrinted(st, o, pieces[1..], i - 1);
    } else {
      DecimalLength(o.year);
    }
    hide LabelOf;
  }

  lemma NothingReadYet(o: DateObject)
    ensures ReadsOff(o, map[])
  {
  }

  // Printing without pieces: a format read from left to right

  /** The name of that number, or the label when there is none. */
  function Named(names: seq<string>, i: int, default: string): string {
    if 0 <= i < |names| && names[i] != "" then names[i] else default
  }

  /**
   What the rest of a format prints, the longest label first.  `!` escapes the character after it; one that has none on
   its line is dropped where text begins, that is when it `opens` the text.
   */
  function Scanned(st: Settings, o: DateObject, f: string, opens: bool): string
    decreases |f|
  {
    if f == "" then ""
    else if "dddd" <= f then Named(st.weekdaysFull, o.day, "dddd") + Scanned(st, o, f[4..], true)
    else if "ddd" <= f then Named(st.weekdaysShort, o.day, "ddd") + Scanned(st, o, f[3..], true)
    else if "dd" <= f then Lead(o.date) + Scanned(st, o, f[2..], true)
    else if "d" <= f then Decimal(o.date) + Scanned(st, o, f[1..], true)
    else if "mmmm" <= f then Named(st.monthsFull, o.month, "mmmm") + Scanned(st, o, f[4..], true)
    else if "mmm" <= f then Named(st.monthsShort, o.month, "mmm") + Scanned(st, o, f[3..], true)
    else if "mm" <= f then Lead(o.month + 1) + Scanned(st, o, f[2..], true)
    else if "m" <= f then Decimal(o.month + 1) + Scanned(st, o, f[1..], true)
    else if "yyyy" <= f then (if o.year == 0 then "yyyy" else Decimal(o.year)) + Scanned(st, o, f[4..], true)
    else if "yy" <= f then
      (if |Decimal(o.year)| > 2 then Decimal(o.year)[2..] else "yy") + Scanned(st, o, f[2..], true)
    else if f[0] == '!' && |f| > 1 && f[1] !in "\n\r\U{2028}\U{2029}" then [f[1]] + Scanned(st, o, f[2..], true)
    else (if f[0] == '!' && opens then "" else [f[0]]) + Scanned(st, o, f[1..], false)
  }

  /** A run is as long as it can be. */
  lemma {:induction false} RunIsLongest(f: string, i: nat, c: char, n: nat)
    requires i <= |f|
    ensures var k := Run(f, i, c, n);
      (forall j :: i <= j < i + k ==> f[j] == c) && (k < n && i + k < |f| ==> f[i + k] != c)
    decreases n
  {
    if n > 0 && i < |f| && f[i] == c {
      RunIsLongest(f, i + 1, c, n - 1);
    }
  }

  /** A format begins with some number of a letter exactly when it has that many of them there. */
  lemma BeginsWith(f: string, i: nat, w: string, c: char)
    requires i < |f| && w != "" && forall j :: 0 <= j < |w| ==> w[j] == c
    ensures w <= f[i..] <==> i + |w| <= |f| && forall j :: i <= j < i + |w| ==> f[j] == c
    ensures f[i] != c ==> !(w <= f[i..])
  {
    if w <= f[i..] {
      forall j | i <= j < i + |w| ensures f[j] == c {
        assert f[j] == f[i..][j - i] == w[j - i];
      }
    }
  }

  /** A format that begins with some other character begins with no label of days, of months or of years. */
  lemma NoOtherLabel(f: string, i: nat)
    requires i < |f|
    ensures f[i] != 'd' ==> !("d" <= f[i..]) && !("dd" <= f[i..]) && !("ddd" <= f[i..]) && !("dddd" <= f[i..])
    ensures f[i] != 'm' ==> !("m" <= f[i..]) && !("mm" <= f[i..]) && !("mmm" <= f[i..]) && !("mmmm" <= f[i..])
    ensures f[i] != 'y' ==> !("yy" <= f[i..]) && !("yyyy" <= f[i..])
  {
    assert f[i..][0] == f[i];
  }

  /** What the labels print, by their texts. */
  lemma DayLabels(st: Settings, o: DateObject)
    ensures PrintPiece(st, o, "d") == Decimal(o.date) && PrintPiece(st, o, "dd") == Lead(o.date)
    ensures PrintPiece(st, o, "ddd") == Named(st.weekdaysShort, o.day, "ddd")
    ensures PrintPiece(st, o, "dddd") == Named(st.weekdaysFull, o.day, "dddd")
  {
    hide Decimal, Lead;
  }

  lemma MonthLabels(st: Settings, o: DateObject)
    ensures PrintPiece(st, o, "m") == Decimal(o.month + 1) && PrintPiece(st, o, "mm") == Lead(o.month + 1)
    ensures PrintPiece(st, o, "mmm") == Named(st.monthsShort, o.month, "mmm")
    ensures PrintPiece(st, o, "mmmm") == Named(st.monthsFull, o.month, "mmmm")
  {
    hide Decimal, Lead;
  }

  lemma YearLabels(st: Settings, o: DateObject)
    ensures PrintPiece(st, o, "yy") == if |Decimal(o.year)| > 2 then Decimal(o.year)[2..] else "yy"
    ensures PrintPiece(st, o, "yyyy") == if o.year == 0 then "yyyy" else Decimal(o.year)
  {
    hide Decimal, Lead;
  }

  /** A label of some letter is here exactly when so many of the letter are. */
  lemma LabelHere(f: string, i: nat, c: char, w: string)
    requires i < |f| && f[i] == c && 1 <= |w| <= 4 && forall j :: 0 <= j < |w| ==> w[j] == c
    ensures var k := Run(f, i, c, 4);
      (w <= f[i..] <==> |w| <= k) && (|w| <= k ==> f[i..i + |w|] == w && f[i..][|w|..] == f[i + |w|..])
  {
    hide Run;
    RunIsLongest(f, i, c, 4);
    BeginsWith(f, i, w, c);
  }

  lemma RunHere(f: string, i: nat)
    requires i < |f|
    ensures f[i] == 'd' || f[i] == 'm' ==> TokenLength(f, i) == Run(f, i, f[i], 4) >= 1
    ensures f[i] == 'y' ==>
      TokenLength(f, i) == if Run(f, i, 'y', 4) == 4 then 4 else if Run(f, i, 'y', 4) >= 2 then 2 else 0
  {
  }

  lemma ScannedDay(st: Settings, o: DateObject, g: string, opens: bool)
    requires "d" <= g
    ensures Scanned(st, o, g, opens) ==
      if "dddd" <= g then Named(st.weekdaysFull, o.day, "dddd") + Scanned(st, o, g[4..], true)
      else if "ddd" <= g then Named(st.weekdaysShort, o.day, "ddd") + Scanned(st, o, g[3..], true)
      else if "dd" <= g then Lead(o.date) + Scanned(st, o, g[2..], true)
      else Decimal(o.date) + Scanned(st, o, g[1..], true)
  {
    hide Decimal, Lead, Named;
  }

  lemma ScannedMonth(st: Settings, o: DateObject, g: string, opens: bool)
    requires "m" <= g
    ensures Scanned(st, o, g, opens) ==
      if "mmmm" <= g then Named(st.monthsFull, o.month, "mmmm") + Scanned(st, o, g[4..], true)
      else if "mmm" <= g then Named(st.monthsShort, o.month, "mmm") + Scanned(st, o, g[3..], true)
      else if "mm" <= g then Lead(o.month + 1) + Scanned(st, o, g[2..], true)
      else Decimal(o.month + 1) + Scanned(st, o, g[1..], true)
  {
    hide Decimal, Lead, Named;
    assert g[0] == 'm' && g[0..] == g;
    NoOtherLabel(g, 0);
  }

  lemma ScannedYear(st: Settings, o: DateObject, g: string, opens: bool)
    requires "y" <= g
    ensures Scanned(st, o, g, opens) ==
      if "yyyy" <= g then (if o.year == 0 then "yyyy" else Decimal(o.year)) + Scanned(st, o, g[4..], true)
      else if "yy" <= g then
        (if |Decimal(o.year)| > 2 then Decimal(o.year)[2..] else "yy") + Scanned(st, o, g[2..], true)
      else "y" + Scanned(st, o, g[1..], false)
  {
    hide Decimal, Lead, Named;
    assert g[0] == 'y' && g[0..] == g;
    NoOtherLabel(g, 0);
  }

  lemma ScanDay(st: Settings, o: DateObject, f: string, i: nat, opens: bool)
    requires i < |f| && f[i] == 'd'
    ensures var k := TokenLength(f, i);
      Scanned(st, o, f[i..], opens) == PrintPiece(st, o, f[i..i + k]) + Scanned(st, o, f[i + k..], true)
  {
    hide *;
    var k := TokenLength(f, i);
    DayLabels(st, o);
    RunHere(f, i);
    LabelHere(f, i, 'd', "d");
    LabelHere(f, i, 'd', "dd");
    LabelHere(f, i, 'd', "ddd");
    LabelHere(f, i, 'd', "dddd");
    ScannedDay(st, o, f[i..], opens);
  }

  lemma ScanMonth(st: Settings, o: DateObject, f: string, i: nat, opens: bool)
    requires i < |f| && f[i] == 'm'
    ensures var k := TokenLength(f, i);
      Scanned(st, o, f[i..], opens) == PrintPiece(st, o, f[i..i + k]) + Scanned(st, o, f[i + k..], true)
  {
    hide *;
    var k := TokenLength(f, i);
    MonthLabels(st, o);
    RunHere(f, i);
    LabelHere(f, i, 'm', "m");
    LabelHere(f, i, 'm', "mm");
    LabelHere(f, i, 'm', "mmm");
    LabelHere(f, i, 'm', "mmmm");
    ScannedMonth(st, o, f[i..], opens);
  }

  lemma ScanYear(st: Settings, o: DateObject, f: string, i: nat, opens: bool)
    requires i < |f| && f[i] == 'y'
    ensures var k := TokenLength(f, i);
      if k > 0 then Scanned(st, o, f[i..], opens) == PrintPiece(st, o, f[i..i + k]) + Scanned(st, o, f[i + k..], true)
      else Scanned(st, o, f[i..], opens) == "y" + Scanned(st, o, f[i + 1..], false)
  {
    hide *;
    var k := TokenLength(f, i);
    YearLabels(st, o);
    RunHere(f, i);
    LabelHere(f, i, 'y', "y");
    LabelHere(f, i, 'y', "yy");
    LabelHere(f, i, 'y', "yyyy");
    assert f[i..][0] == 'y' && "y" <= f[i..];
    ScannedYear(st, o, f[i..], opens);
  }

  lemma EscapePrints(st: Settings, o: DateObject, c: char)
    ensures PrintPiece(st, o, ['!', c]) == [c]
  {
    hide Decimal, Lead;
  }

  lemma ScanOther(st: Settings, o: DateObject, f: string, i: nat, opens: bool)
    requires i < |f| && f[i] != 'd' && f[i] != 'm' && f[i] != 'y'
    ensures var k := TokenLength(f, i);
      if k > 0 then Scanned(st, o, f[i..], opens) == PrintPiece(st, o, f[i..i + k]) + Scanned(st, o, f[i + k..], true)
      else
        var here := if f[i] == '!' && opens then "" else [f[i]];
        Scanned(st, o, f[i..], opens) == here + Scanned(st, o, f[i + 1..], false)
  {
    hide Decimal, Lead, PrintPiece, LabelOf, Named;
    var k := TokenLength(f, i);
    NoOtherLabel(f, i);
    assert f[i..][0] == f[i] && f[i..][1..] == f[i + 1..] && f[i..][k..] == f[i + k..];
    if k > 0 {
      assert f[i..][1] == f[i + 1];
      assert f[i..i + k] == ['!', f[i + 1]];
      EscapePrints(st, o, f[i + 1]);
    }
  }

  lemma TextIsNoLabel(s: string)
    requires NoLabels(s)
    ensures LabelOf(s) == Text
  {
    assert s != "" ==> s[0] != 'd' && s[0] != 'm';
    assert |s| > 1 ==> !(s[0] == 'y' && s[1] == 'y');
  }

  lemma UnescapedMore(text: string, c: char)
    ensures Unescaped(text + [c]) == Unescaped(text) + if c == '!' && text == "" then "" else [c]
  {
  }

  lemma SplitStep(f: string, from: nat, i: nat)
    requires from <= i < |f|
    ensures var k := TokenLength(f, i);
      SplitFrom(f, from, i) ==
        if k == 0 then SplitFrom(f, from, i + 1) else [f[from..i], f[i..i + k]] + SplitFrom(f, i + k, i + k)
  {
    hide TokenLength;
  }

  lemma SplitEnd(f: string, from: nat)
    requires from <= |f|
    ensures SplitFrom(f, from, |f|) == [f[from..]] && f[from..] == f[from..|f|]
    ensures f[|f|..] == "" && Unescaped("") == ""
  {
  }

  lemma Regroup(a: string, b: string, c: string)
    ensures (a + b) + c == a + (b + c) && "" + c == c
  {
  }

  /** The text before `i` and what follows print as if scanned. */
  lemma {:induction false} ScanFrom(st: Settings, o: DateObject, f: string, from: nat, i: nat)
    requires from <= i <= |f| && NoLabels(f[from..i]) && (from < i ==> TokenLength(f, i - 1) == 0)
    ensures PrintPieces(st, o, SplitFrom(f, from, i)) == Unescaped(f[from..i]) + Scanned(st, o, f[i..], from == i)
    decreases |f| - i
  {
    hide *;
    var text := f[from..i];
    if i == |f| {
      TextIsNoLabel(text);
      TextPrints(st, o, text);
      SplitEnd(f, from);
      PrintOne(st, o, text);
      NothingScanned(st, o, f[i..], from == i);
    } else if TokenLength(f, i) == 0 {
      NoTokenHere(f, from, i);
      ScanFrom(st, o, f, from, i + 1);
      ScanText(st, o, f, from, i);
    } else {
      var k := TokenLength(f, i);
      assert f[i + k..i + k] == "";
      EmptyText();
      ScanFrom(st, o, f, i + k, i + k);
      ScanToken(st, o, f, from, i);
    }
  }

  lemma ScanText(st: Settings, o: DateObject, f: string, from: nat, i: nat)
    requires from <= i < |f| && TokenLength(f, i) == 0
    requires PrintPieces(st, o, SplitFrom(f, from, i + 1))
      == Unescaped(f[from..i + 1]) + Scanned(st, o, f[i + 1..], false)
    ensures PrintPieces(st, o, SplitFrom(f, from, i)) == Unescaped(f[from..i]) + Scanned(st, o, f[i..], from == i)
  {
    hide *;
    var text := f[from..i];
    SplitStep(f, from, i);
    ScanHere(st, o, f, i, from == i);
    assert f[from..i + 1] == text + [f[i]];
    UnescapedMore(text, f[i]);
    Regroup(Unescaped(text), if f[i] == '!' && text == "" then "" else [f[i]], Scanned(st, o, f[i + 1..], false));
  }

  lemma ScanToken(st: Settings, o: DateObject, f: string, from: nat, i: nat)
    requires from <= i < |f| && TokenLength(f, i) > 0 && NoLabels(f[from..i])
    requires var k := TokenLength(f, i);
      PrintPieces(st, o, SplitFrom(f, i + k, i + k)) == Unescaped("") + Scanned(st, o, f[i + k..], true)
    ensures PrintPieces(st, o, SplitFrom(f, from, i)) == Unescaped(f[from..i]) + Scanned(st, o, f[i..], from == i)
  {
    hide *;
    var text, k := f[from..i], TokenLength(f, i);
    TextIsNoLabel(text);
    TextPrints(st, o, text);
    SplitStep(f, from, i);
    SplitEnd(f, from);
    ScanHere(st, o, f, i, from == i);
    PrintTwo(st, o, text, f[i..i + k], SplitFrom(f, i + k, i + k));
    Regroup("", "", Scanned(st, o, f[i + k..], true));
  }

  lemma ScanHere(st: Settings, o: DateObject, f: string, i: nat, opens: bool)
    requires i < |f|
    ensures var k := TokenLength(f, i);
      if k > 0 then Scanned(st, o, f[i..], opens) == PrintPiece(st, o, f[i..i + k]) + Scanned(st, o, f[i + k..], true)
      else
        var here := if f[i] == '!' && opens then "" else [f[i]];
        Scanned(st, o, f[i..], opens) == here + Scanned(st, o, f[i + 1..], false)
  {
    hide Scanned, PrintPiece;
    if f[i] == 'd' {
      ScanDay(st, o, f, i, opens);
    } else if f[i] == 'm' {
      ScanMonth(st, o, f, i, opens);
    } else if f[i] == 'y' {
      ScanYear(st, o, f, i, opens);
    } else {
      ScanOther(st, o, f, i, opens);
    }
    LabelsAreTokens(f, i);
  }

  lemma TextPrints(st: Settings, o: DateObject, text: string)
    requires LabelOf(text) == Text
    ensures PrintPiece(st, o, text) == Unescaped(text)
  {
    hide LabelOf;
  }

  lemma NothingScanned(st: Settings, o: DateObject, f: string, opens: bool)
    requires f == ""
    ensures Scanned(st, o, f, opens) == ""
  {
  }

  lemma PrintOne(st: Settings, o: DateObject, piece: string)
    ensures PrintPieces(st, o, [piece]) == PrintPiece(st, o, piece)
  {
    hide PrintPiece;
    assert PrintPieces(st, o, [piece]) == PrintPiece(st, o, piece) + PrintPieces(st, o, []);
  }

  lemma PrintTwo(st: Settings, o: DateObject, a: string, b: string, rest: seq<string>)
    ensures PrintPieces(st, o, [a, b] + rest)
      == PrintPiece(st, o, a) + (PrintPiece(st, o, b) + PrintPieces(st, o, rest))
  {
    hide PrintPiece;
    var all := [a, b] + rest;
    assert all[1..] == [b] + rest && all[1..][1..] == rest;
  }

  /** Every format prints what reading it from left to right gives, with every label, escape and text in its place. */
  lemma PrintsAsScanned(st: Settings, format: string, o: DateObject)
    ensures ToString(st, format, o) == Scanned(st, o, format, true)
  {
    EmptyText();
    assert format[0..0] == "" && format[0..] == format;
    hide Scanned, SplitFrom, PrintPieces;
    ScanFrom(st, o, format, 0, 0);
  }

  predicate NoEscapes(t: string) {
    forall i :: 0 <= i < |t| ==> t[i] != '!'
  }

  lemma ScanCharacter(st: Settings, o: DateObject, g: string, opens: bool)
    requires g != "" && g[0] != 'd' && g[0] != 'm' && g[0] != '!' && (|g| > 1 && g[0] == 'y' ==> g[1] != 'y')
    ensures Scanned(st, o, g, opens) == [g[0]] + Scanned(st, o, g[1..], false)
  {
    hide Scanned, PrintPiece;
    assert g[0..] == g && TokenLength(g, 0) == 0;
    ScanHere(st, o, g, 0, opens);
  }

  /** Text without labels and escapes prints as it stands, whatever follows it, unless two `y` meet. */
  lemma {:induction false} TextStands(st: Settings, o: DateObject, t: string, f: string, opens: bool)
    requires NoLabels(t) && NoEscapes(t) && (t != "" && t[|t| - 1] == 'y' && f != "" ==> f[0] != 'y')
    ensures Scanned(st, o, t + f, opens) == t + Scanned(st, o, f, opens && t == "")
    decreases |t|
  {
    hide Scanned, NoLabels, NoEscapes;
    if t == "" {
      assert t + f == f;
    } else {
      TextTail(t);
      assert (t + f)[1..] == t[1..] + f;
      TextStands(st, o, t[1..], f, false);
      ScanCharacter(st, o, t + f, opens);
    }
  }

  lemma TextTail(t: string)
    requires t != "" && NoLabels(t) && NoEscapes(t)
    ensures NoLabels(t[1..]) && NoEscapes(t[1..])
    ensures t[0] != 'd' && t[0] != 'm' && t[0] != '!' && (|t| > 1 && t[0] == 'y' ==> t[1] != 'y')
  {
    forall i | 0 <= i < |t[1..]|
      ensures t[1..][i] != 'd' && t[1..][i] != 'm' && t[1..][i] != '!'
      ensures i < |t[1..]| - 1 ==> !(t[1..][i] == 'y' && t[1..][i + 1] == 'y')
    {
      assert t[1..][i] == t[i + 1];
      if i < |t[1..]| - 1 {
        assert t[1..][i + 1] == t[i + 2];
      }
    }
  }

  /** So a format that is nothing but such text prints as itself, and an escape prints the character after it. */
  lemma TextPrintsItself(st: Settings, t: string, o: DateObject)
    requires NoLabels(t) && NoEscapes(t) && t !in RESERVED
    ensures ToString(st, t, o) == t
  {
    hide ToString, Scanned;
    PrintsAsScanned(st, t, o);
    TextStands(st, o, t, "", true);
    NothingScanned(st, o, "", t == "");
    assert t + "" == t;
  }

  lemma EscapePrintsCharacter(st: Settings, c: char, o: DateObject)
    requires c !in "\n\r\U{2028}\U{2029}"
    ensures ToString(st, ['!', c], o) == [c]
  {
    hide ToString, Decimal, Lead;
    var f := ['!', c];
    PrintsAsScanned(st, f, o);
    assert f[2..] == "" && f[0..] == f;
    NoOtherLabel(f, 0);
  }

  /** The default format prints the date, the name of the month and the year, with a space and a comma between them. */
  lemma DefaultFormatPrints(st: Settings, o: DateObject)
    requires o.year != 0 && 0 <= o.month < |st.monthsFull| && st.monthsFull[o.month] != ""
    ensures ToString(st, "d mmmm, yyyy", o)
      == Decimal(o.date) + " " + st.monthsFull[o.month] + ", " + Decimal(o.year)
  {
    hide ToString, Decimal, Lead, Scanned, NoLabels, PrintPiece;
    var f, g := "d mmmm, yyyy", "mmmm, yyyy";
    PrintsAsScanned(st, f, o);
    assert f[1..] == " " + g && g[4..] == ", " + "yyyy";
    ScanLabel(st, o, f, 1, "d", true);
    ScanLabel(st, o, g, 4, "mmmm", false);
    ScanLabel(st, o, "yyyy", 4, "yyyy", false);
    PlainText();
    TextStands(st, o, " ", g, true);
    TextStands(st, o, ", ", "yyyy", true);
    NothingScanned(st, o, "yyyy"[4..], true);
    DayLabels(st, o);
    MonthLabels(st, o);
    YearLabels(st, o);
  }

  lemma PlainText()
    ensures NoLabels(" ") && NoLabels(", ")
  {
  }

  /** A format that begins with a label and goes on otherwise. */
  lemma ScanLabel(st: Settings, o: DateObject, f: string, k: nat, l: string, opens: bool)
    requires 0 < k <= |f| && f[..k] == l && l in {"d", "mmmm", "yyyy"} && (k < |f| ==> f[k] != l[0])
    ensures Scanned(st, o, f, opens) == PrintPiece(st, o, l) + Scanned(st, o, f[k..], true)
  {
    hide Scanned, PrintPiece;
    assert f[0] == l[0] && f[0..] == f;
    assert forall j :: 0 <= j < k ==> f[j] == f[..k][j];
    RunIsLongest(f, 0, l[0], 4);
    assert TokenLength(f, 0) == k;
    ScanHere(st, o, f, 0, opens);
  }

  // Parsing, label by label

  /** The number of a name among the names: its first place, or -1. */
  lemma {:induction false} IndexOfExactly(names: seq<string>, w: string, k: int)
    ensures IndexOf(names, w) == k <==>
      if k == -1 then w !in names
      else 0 <= k < |names| && names[k] == w && forall j :: 0 <= j < k ==> names[j] != w
  {
    if names != [] {
      IndexOfExactly(names[1..], w, k - 1);
      IndexOfExactly(names[1..], w, -1);
      assert w in names <==> w == names[0] || w in names[1..];
      if 0 < k < |names| {
        assert names[1..][k - 1] == names[k];
        if forall j :: 0 <= j < k ==> names[j] != w {
          forall j | 0 <= j < k - 1 ensures names[1..][j] != w {
            assert names[1..][j] == names[j + 1];
          }
        } else if names[0] != w {
          var j :| 0 <= j < k && names[j] == w;
          assert names[1..][j - 1] == w;
        }
      }
    }
  }

  /** The word characters from `i` to `j` are the first word of a text. */
  predicate IsFirstWord(s: string, i: nat, j: nat) {
    && i < j <= |s|
    && (forall k :: 0 <= k < i ==> !IsWord(s[k]))
    && (forall k :: i <= k < j ==> IsWord(s[k])) && (j < |s| ==> !IsWord(s[j]))
  }

  lemma {:induction false} WordPrefixEnds(s: string)
    ensures var w := WordPrefix(s);
      w <= s && (forall k :: 0 <= k < |w| ==> IsWord(s[k])) && (|w| < |s| ==> !IsWord(s[|w|]))
  {
    hide IsWord;
    if s != "" && IsWord(s[0]) {
      WordPrefixEnds(s[1..]);
      var w := WordPrefix(s[1..]);
      assert forall k :: 0 <= k < |w| ==> s[k + 1] == s[1..][k];
      assert |w| < |s[1..]| ==> s[1..][|w|] == s[|w| + 1];
      assert s == [s[0]] + s[1..];
      forall k | 0 <= k < |w| + 1 ensures IsWord(s[k]) {
        if k > 0 {
          assert s[1..][k - 1] == s[k];
        }
      }
    }
  }

  /** The first word is that of the first word character, up to the next that is none; there is none without one. */
  lemma {:induction false} FirstWordAt(s: string) returns (i: nat, j: nat)
    ensures FirstWord(s).None? <==> forall k :: 0 <= k < |s| ==> !IsWord(s[k])
    ensures FirstWord(s).Some? ==> IsFirstWord(s, i, j) && FirstWord(s) == Some(s[i..j])
  {
    hide IsWord;
    i, j := 0, 0;
    if s != "" {
      assert forall k :: 0 < k < |s| ==> s[k] == s[1..][k - 1];
      if IsWord(s[0]) {
        WordPrefixEnds(s);
        j := |WordPrefix(s)|;
        assert s[0..j] == WordPrefix(s);
      } else {
        var a, b := FirstWordAt(s[1..]);
        i, j := a + 1, b + 1;
        if FirstWord(s[1..]).None? {
          forall k | 0 <= k < |s| ensures !IsWord(s[k]) {
            assert k > 0 ==> !IsWord(s[1..][k - 1]);
          }
        } else {
          assert s[1..][a..b] == s[i..j];
          assert IsWord(s[1..][a]);
        }
      }
    }
  }

  lemma WordLength(s: string, i: nat, j: nat)
    requires IsFirstWord(s, i, j)
    ensures FirstWord(s) == Some(s[i..j])
  {
    hide IsWord, FirstWord;
    var a, b := FirstWordAt(s);
    assert IsWord(s[i]) && FirstWord(s).Some? && IsWord(s[a]);
    assert a == i;
    assert b == j;
  }

  /**
   How many characters a piece takes of a value that is not used up: two for a date or month number whose second
   character is a digit, otherwise one; two for the numbers with two digits, four for a full year; the length of the
   first word for a name, which fails without one; the character of an escape; all of any other text.
   */
  lemma PieceTakes(piece: string, value: string, i: nat, j: nat)
    requires value != ""
    ensures piece in {"d", "m"} ==>
      PieceLength(piece, value) == Some(if |value| > 1 && 48 <= value[1] as int <= 57 then 2 else 1)
    ensures piece in {"dd", "mm", "yy"} ==> PieceLength(piece, value) == Some(2)
    ensures piece == "yyyy" ==> PieceLength(piece, value) == Some(4)
    ensures piece in {"ddd", "dddd", "mmm", "mmmm"} ==>
      (IsFirstWord(value, i, j) ==> PieceLength(piece, value) == Some(j - i))
      && ((forall k :: 0 <= k < |value| ==> !IsWord(value[k])) <==> PieceLength(piece, value).None?)
  {
    hide FirstWord, IsWord;
    if IsFirstWord(value, i, j) {
      WordLength(value, i, j);
    }
    var a, b := FirstWordAt(value);
  }

  lemma TextTakes(piece: string, value: string, c: char)
    ensures NoLabels(piece) && (piece != "" ==> piece[0] != '!') ==> PieceLength(piece, value) == Some(|piece|)
    ensures PieceLength(['!', c], value) == Some(1)
    ensures piece in {"d", "dd", "ddd", "dddd", "m", "mm", "mmm", "mmmm", "yy", "yyyy"} ==>
      PieceLength(piece, "") == Some(0)
  {
    hide FirstWord, Digits;
    if NoLabels(piece) {
      TextIsNoLabel(piece);
    }
  }

  /** A field that is there and not the empty text. */
  predicate Given(fields: Fields, l: Label) {
    l in fields && fields[l] != Str("") && fields[l] != Num(0)
  }

  /** What a text reads as: its number when it is made of digits. */
  predicate ReadsAs(f: Field, n: Option<int>) {
    match f
    case Num(k) => n == Some(k)
    case Str(s) =>
      if s == "" || exists i :: 0 <= i < |s| && !(48 <= s[i] as int <= 57) then n == None else n == Some(DigitsValue(s))
  }

  predicate ReadsEither(fields: Fields, one: Label, two: Label, n: Option<int>) {
    if Given(fields, one) then ReadsAs(fields[one], n) else if two in fields then ReadsAs(fields[two], n) else n == None
  }

  /**
   Of two fields for the same thing the one with more digits counts, unless it is missing or empty; months count from
   0.
   */
  lemma HarvestExactly(fields: Fields, year: Option<int>, month: Option<int>, date: Option<int>)
    requires ReadsEither(fields, YYYY, YY, year) && ReadsEither(fields, MM, M, month)
    requires ReadsEither(fields, DD, D, date)
    ensures Harvest(fields) == Parsed(year, if month.Some? then Some(month.value - 1) else None, date)
  {
    hide DigitsValue;
  }

  /** The name of a month is noted as its number from 1, or 0 when it is none, unless a number has been read. */
  lemma MonthIsNoted(st: Settings, fields: Fields, l: Label, value: string, i: nat, j: nat, k: int)
    requires IsFirstWord(value, i, j)
    requires l == MMM || l == MMMM
    requires var names := if l == MMM then st.monthsShort else st.monthsFull;
      if k == 0 then value[i..j] !in names
      else 1 <= k <= |names| && names[k - 1] == value[i..j] && forall m :: 0 <= m < k - 1 ==> names[m] != value[i..j]
    ensures NoteMonth(st, fields, l, value) ==
      if Given(fields, MM) || Given(fields, M) then fields else fields[M := Num(k)]
  {
    hide FirstWord, IndexOf, IsWord;
    WordLength(value, i, j);
    IndexOfExactly(if l == MMM then st.monthsShort else st.monthsFull, value[i..j], k - 1);
  }

  lemma OnlyMonthsAreNoted(st: Settings, fields: Fields, l: Label, value: string)
    requires (l != MMM && l != MMMM) || forall k :: 0 <= k < |value| ==> !IsWord(value[k])
    ensures NoteMonth(st, fields, l, value) == fields
  {
    hide FirstWord, IsWord, IndexOf;
    var i, j := FirstWordAt(value);
  }

  // The default format

  /** The pieces of the default format. */
  lemma DefaultPieces()
    ensures ToArray("d mmmm, yyyy") == ["", "d", " ", "mmmm", ", ", "yyyy", ""]
  {
    var f := "d mmmm, yyyy";
    DefaultTokens();
    hide *;
    DefaultSlices();
    SplitEnd(f, 12);
    SplitStep(f, 6, 8);
    SplitStep(f, 6, 7);
    SplitStep(f, 6, 6);
    JoinPieces(", ", "yyyy", [""], [", ", "yyyy", ""]);
    SplitStep(f, 1, 2);
    SplitStep(f, 1, 1);
    JoinPieces(" ", "mmmm", [", ", "yyyy", ""], [" ", "mmmm", ", ", "yyyy", ""]);
    SplitStep(f, 0, 0);
    JoinPieces("", "d", [" ", "mmmm", ", ", "yyyy", ""], ["", "d", " ", "mmmm", ", ", "yyyy", ""]);
    ArrayIsSplit(f);
  }

  lemma DefaultSlices()
    ensures var f := "d mmmm, yyyy";
      f[0..0] == "" && f[0..1] == "d" && f[1..2] == " " && f[2..6] == "mmmm" && f[6..8] == ", " && f[8..12] == "yyyy"
      && f[12..] == "" && |f| == 12
  {
  }

  lemma JoinPieces(a: string, b: string, rest: seq<string>, all: seq<string>)
    requires |all| == |rest| + 2 && all[0] == a && all[1] == b
    requires forall i :: 0 <= i < |rest| ==> all[i + 2] == rest[i]
    ensures [a, b] + rest == all
  {
  }

  lemma ArrayIsSplit(f: string)
    ensures ToArray(f) == SplitFrom(f, 0, 0)
  {
  }

  lemma DefaultTokens()
    ensures var f := "d mmmm, yyyy";
      TokenLength(f, 0) == 1 && TokenLength(f, 1) == 0 && TokenLength(f, 2) == 4 && TokenLength(f, 6) == 0
      && TokenLength(f, 7) == 0 && TokenLength(f, 8) == 4
  {
    var f := "d mmmm, yyyy";
    assert f[0] == 'd' && f[1] == ' ' && f[2] == f[3] == f[4] == f[5] == 'm' && f[6] == ',';
    assert f[8] == f[9] == f[10] == f[11] == 'y';
    RunIsLongest(f, 0, 'd', 4);
    RunIsLongest(f, 2, 'm', 4);
    RunIsLongest(f, 8, 'y', 4);
  }

  lemma SeparatedStep(st: Settings, piece: string, rest: seq<string>)
    requires Separated(st, rest)
    requires var l := LabelOf(piece);
      && (l == Text ==> piece !in RESERVED) && (l == D || l == M ==> NoDigitNext(st, rest))
      && (IsWordLabel(l) ==> NamesFit(st, l) && NoWordNext(rest))
    ensures Separated(st, [piece] + rest)
  {
    hide NamesFit, LabelOf, NoDigitNext, NoWordNext;
    assert ([piece] + rest)[1..] == rest;
  }

  lemma LabelsOfDefault()
    ensures LabelOf("d") == D && LabelOf("mmmm") == MMMM && LabelOf("yyyy") == YYYY
    ensures LabelOf("") == Text && LabelOf(" ") == Text && LabelOf(", ") == Text
    ensures "" !in RESERVED && " " !in RESERVED && ", " !in RESERVED
  {
  }

  lemma TextIsNext(st: Settings, piece: string, rest: seq<string>)
    requires piece in {" ", ", "}
    ensures NoDigitNext(st, [piece] + rest) && NoWordNext([piece] + rest)
  {
    LabelsOfDefault();
  }

  lemma DefaultIsWellFormed(st: Settings)
    requires NamesFit(st, MMMM)
    ensures WellFormed(st, "d mmmm, yyyy")
  {
    hide NamesFit, ToArray, LabelOf, Separated, NoDigitNext, NoWordNext;
    DefaultPieces();
    LabelsOfDefault();
    NothingIsSeparated(st);
    var five: seq<string> := ["yyyy", ""];
    assert [""] + [] == [""] && ["yyyy"] + [""] == five;
    SeparatedStep(st, "", []);
    SeparatedStep(st, "yyyy", [""]);
    SeparatedStep(st, ", ", five);
    TextIsNext(st, ", ", five);
    SeparatedStep(st, "mmmm", [", "] + five);
    SeparatedStep(st, " ", ["mmmm"] + ([", "] + five));
    TextIsNext(st, " ", ["mmmm"] + ([", "] + five));
    SeparatedStep(st, "d", [" "] + (["mmmm"] + ([", "] + five)));
    SeparatedStep(st, "", ["d"] + ([" "] + (["mmmm"] + ([", "] + five))));
    var pieces := ToArray("d mmmm, yyyy");
    assert pieces == [""] + (["d"] + ([" "] + (["mmmm"] + ([", "] + five))));
    assert LabelOf(pieces[1]) == D && LabelOf(pieces[3]) == MMMM && LabelOf(pieces[5]) == YYYY;
  }

  lemma NothingIsSeparated(st: Settings)
    ensures Separated(st, [])
  {
  }

  /**
   In the default format, with twelve different names of word characters, every day of the years 1000 to 9999 is printed
   as its date, a space, the name of its month, a comma, a space and its year, and read back from that.
   */
  lemma DefaultFormatRoundTrip(st: Settings, y: int, m: int, d: int)
    requires |st.monthsFull| == 12 && forall i :: 0 <= i < 12 ==> IsName(st.monthsFull[i])
    requires forall i, j :: 0 <= i < j < 12 ==> st.monthsFull[i] != st.monthsFull[j]
    requires 1000 <= y <= 9999 && 0 <= m < 12 && 1 <= d <= DaysInMonth(y, m)
    ensures var text := Decimal(d) + " " + st.monthsFull[m] + ", " + Decimal(y);
      ToString(st, "d mmmm, yyyy", Create(y, m, d)) == text
      && ParseSpec(st, "d mmmm, yyyy", text) == Read(Parsed(Some(y), Some(m), Some(d)))
  {
    hide ToString, Create, Decimal, ParseSpec, WellFormed, DaysInMonth;
    DefaultIsWellFormed(st);
    DaysArePrintable(y, m, d);
    DefaultFormatPrints(st, Create(y, m, d));
    ParseUndoesPrint(st, "d mmmm, yyyy", y, m, d);
  }
}
