/**
 One call record as a line of text: what the formatter prints and what the parser makes of a line, with
 the C scanners the parser is built from.
 */
module TextCall {
  import opened TraceTypes

  const INT_MAX: int := 0x7fff_ffff
  const UINT: int := 0x1_0000_0000
  const ULONG: int := 0x1_0000_0000_0000_0000
  const NAME_SIZE: nat := 512
  const LINE_SIZE: nat := 2048
  const DAY: nat := 86_400_000

  // ---------------------------------------------------------------- scanning

  /** A step of the parser: it goes on with a value, refuses the line, or leaves what C defines. */
  datatype Step<T> = Ok(value: T) | Failed | Undefined {
    predicate IsFailure() {
      !Ok?
    }

    function PropagateFailure<U>(): Step<U>
      requires IsFailure()
    {
      if Failed? then Step<U>.Failed else Step<U>.Undefined
    }

    function Extract(): T
      requires !IsFailure()
    {
      value
    }
  }

  predicate IsSpace(c: char) {
    c == ' ' || '\t' <= c <= '\r'
  }

  ghost function SkipSpaces(s: string): string {
    if s != "" && IsSpace(s[0]) then SkipSpaces(s[1..]) else s
  }

  predicate IsDigit(c: char, radix: nat) {
    '0' <= c <= '9' || (radix == 16 && ('a' <= c <= 'f' || 'A' <= c <= 'F'))
  }

  function DigitValue(c: char): (d: nat)
    requires IsDigit(c, 16)
    ensures d < 16
  {
    if '0' <= c <= '9' then c as nat - '0' as nat
    else if 'a' <= c <= 'f' then c as nat - 'a' as nat + 10
    else c as nat - 'A' as nat + 10
  }

  lemma DigitValues()
    ensures forall i :: 0 <= i < 10 ==> IsDigit("0123456789"[i], 10) && DigitValue("0123456789"[i]) == i
    ensures forall i :: 0 <= i < 6 ==> IsDigit("abcdef"[i], 16) && IsDigit("ABCDEF"[i], 16)
    ensures forall i :: 0 <= i < 6 ==> DigitValue("abcdef"[i]) == DigitValue("ABCDEF"[i]) == 10 + i
  {
  }

  predicate AllDigits(s: string, radix: nat) {
    forall i :: 0 <= i < |s| ==> IsDigit(s[i], radix)
  }

  /** How many digits a text begins with. */
  ghost function Span(s: string, radix: nat): (n: nat)
    ensures n <= |s| && AllDigits(s[..n], radix)
  {
    if s == "" || !IsDigit(s[0], radix) then 0 else
      assert s[..1 + Span(s[1..], radix)] == [s[0]] + s[1..][..Span(s[1..], radix)];
      1 + Span(s[1..], radix)
  }

  ghost function NumberOf(s: string, radix: nat): nat
    requires AllDigits(s, radix)
  {
    if s == "" then 0 else NumberOf(s[..|s| - 1], radix) * radix + DigitValue(s[|s| - 1])
  }

  ghost function ScanDigits(s: string, radix: nat): Option<(nat, string)> {
    var n := Span(s, radix);
    if n == 0 then None else Some((NumberOf(s[..n], radix), s[n..]))
  }

  /** Takes a base prefix off hexadecimal digits. */
  ghost function SkipBase(s: string, radix: nat): string {
    if radix == 16 && |s| >= 2 && s[0] == '0' && (s[1] == 'x' || s[1] == 'X') then s[2..] else s
  }

  /** `%d` and `%x`: blanks, a sign, for `%x` a base prefix, then digits. */
  ghost function ScanNumber(s: string, radix: nat): Option<(int, string)> {
    var t := SkipSpaces(s);
    if t != "" && (t[0] == '-' || t[0] == '+') then
      match ScanDigits(SkipBase(t[1..], radix), radix)
      case None => None
      case Some((n, rest)) => Some(((if t[0] == '-' then -1 else 1) * n, rest))
    else
      match ScanDigits(SkipBase(t, radix), radix)
      case None => None
      case Some((n, rest)) => Some((n as int, rest))
  }

  ghost function ScanText(s: string, text: string): Option<string> {
    if |text| <= |s| && s[..|text|] == text then Some(s[|text|..]) else None
  }

  /** A literal, then a number. */
  ghost function ScanAfter(s: string, text: string, radix: nat): Option<(int, string)> {
    match ScanText(s, text)
    case None => None
    case Some(rest) => ScanNumber(rest, radix)
  }

  /** What follows the first space. */
  ghost function AfterSpace(s: string): Option<string> {
    if s == "" then None else if s[0] == ' ' then Some(s[1..]) else AfterSpace(s[1..])
  }

  /** Where a character occurs first. */
  ghost function First(s: string, c: char): (r: Option<nat>)
    ensures r.Some? ==> r.value < |s|
  {
    if s == "" then None else if s[0] == c then Some(0) else
      match First(s[1..], c)
      case None => None
      case Some(i) => Some(i + 1)
  }

  /** Where a character occurs last. */
  ghost function Last(s: string, c: char): (r: Option<nat>)
    ensures r.Some? ==> r.value < |s|
  {
    if s == "" then None
    else if s[|s| - 1] == c then Some(|s| - 1)
    else Last(s[..|s| - 1], c)
  }

  lemma {:induction false} FirstFound(s: string, c: char)
    ensures First(s, c).None? <==> c !in s
    ensures First(s, c).Some? ==> s[First(s, c).value] == c && c !in s[..First(s, c).value]
  {
    if s != "" && s[0] != c {
      FirstFound(s[1..], c);
      assert s == [s[0]] + s[1..];
      if First(s, c).Some? {
        var i := First(s[1..], c).value;
        assert s[..i + 1] == [s[0]] + s[1..][..i];
      }
    }
  }

  lemma {:induction false} LastFound(s: string, c: char)
    ensures Last(s, c).None? <==> c !in s
    ensures Last(s, c).Some? ==> s[Last(s, c).value] == c && c !in s[Last(s, c).value + 1..]
  {
    if s != "" && s[|s| - 1] != c {
      var n := |s| - 1;
      LastFound(s[..n], c);
      assert s == s[..n] + [s[n]];
      if Last(s, c).Some? {
        var i := Last(s[..n], c).value;
        assert s[i + 1..] == s[..n][i + 1..] + [s[n]];
      }
    }
  }

  // ---------------------------------------------------------------- printing

  function DigitChar(d: nat): (c: char)
    requires d < 16
    ensures IsDigit(c, 16) && DigitValue(c) == d && (d < 10 ==> IsDigit(c, 10))
  {
    if d < 10 then '0' + d as char else 'a' + (d - 10) as char
  }

  function Digits(n: nat, radix: nat): (s: string)
    requires radix == 10 || radix == 16
    ensures s != "" && AllDigits(s, radix) && NumberOf(s, radix) == n
    ensures s[0] == '0' ==> |s| == 1 && n == 0
  {
    if n < radix then
      assert NumberOf([DigitChar(n)], radix) == NumberOf([], radix) * radix + n;
      [DigitChar(n)]
    else
      var front := Digits(n / radix, radix);
      var s := front + [DigitChar(n % radix)];
      assert s[..|s| - 1] == front;
      s
  }

  function IntText(n: int): string {
    if n < 0 then "-" + Digits(-n, 10) else Digits(n, 10)
  }

  function Zeros(n: nat): (s: string)
    ensures |s| == n && AllDigits(s, 10)
  {
    if n == 0 then "" else Zeros(n - 1) + "0"
  }

  /** `%0<width>d` of a number that is not negative. */
  function Padded(n: nat, width: nat): string {
    var s := Digits(n, 10);
    if |s| < width then Zeros(width - |s|) + s else s
  }

  /** How the resource type of a call is given: not at all, by id, by reference, or by name. */
  datatype ResField = NoField | ById(id: nat) | NullRef | ByRef(name: string, hidden: bool) | ByName(name: string)

  datatype CallLine = CallLine(
    index: int, kind: CallKind, context: nat, timestamp: nat, name: string, res: ResField, id: nat, size: int)

  /** The fields hold what their C types can. */
  predicate Typed(c: CallLine) {
    && -INT_MAX - 1 <= c.index <= INT_MAX && -INT_MAX - 1 <= c.size <= INT_MAX
    && c.context < UINT && c.timestamp < UINT && c.id < ULONG
  }

  /** The type name that is printed. */
  function Shown(res: ResField): Option<string> {
    match res
    case ByRef(name, hidden) => if hidden then None else Some(name)
    case ByName(name) => Some(name)
    case _ => None
  }

  /** The printed fields, each in front of the text that follows it. */
  function IndexText(index: int, u: string): string {
    IntText(index) + ("." + (" " + u))
  }

  function ContextText(context: nat, u: string): string {
    if context == 0 then u else "@" + (Digits(context, 16) + (" " + u))
  }

  function TimeText(time: nat, u: string): string {
    if time == 0 then u else
      ClockText(time / 3_600_000, time / 60_000 % 60, time / 1000 % 60, time % 1000, u)
  }

  function ClockText(h: nat, m: nat, s: nat, ms: nat, u: string): string {
    "[" + (Padded(h, 2) + (":" + (Padded(m, 2) + (":" + (Padded(s, 2) + ("." + (Padded(ms, 3) + ("]" + (" " + u)))))))))
  }

  function TypeText(res: ResField, u: string): string {
    match Shown(res)
    case None => u
    case Some(t) => "<" + (t + (">" + u))
  }

  function AllocText(size: int, id: nat): string {
    "(" + (IntText(size) + (")" + (" " + ("=" + (" " + ("0x" + (Digits(id, 16) + "\n")))))))
  }

  function FreeText(id: nat): string {
    "(0x" + (Digits(id, 16) + ")\n")
  }

  function ArgsText(c: CallLine): string {
    if c.kind.Alloc? then AllocText(c.size, c.id) else FreeText(c.id)
  }

  /** Name, type and arguments. */
  function Body(c: CallLine): string {
    c.name + TypeText(c.res, ArgsText(c))
  }

  /** The time that is printed: a time of all ones stands for the moment of printing. */
  function PrintedTime(c: CallLine, now: nat): nat {
    if c.timestamp == UINT - 1 then now else c.timestamp
  }

  /** The line, written out with its marks and blanks; `ClockShape` says how the clock looks. */
  lemma LineLaidOut(c: CallLine, now: nat)
    ensures var time := if c.timestamp == UINT - 1 then now else c.timestamp;
            var context := if c.context == 0 then "" else "@" + Digits(c.context, 16) + " ";
            var named := match c.res
                         case ByRef(t, false) => "<" + t + ">"
                         case ByName(t) => "<" + t + ">"
                         case _ => "";
            var args := if c.kind.Alloc? then "(" + IntText(c.size) + ") = 0x" + Digits(c.id, 16) + "\n"
                        else "(0x" + Digits(c.id, 16) + ")\n";
            CallText(c, now) == IntText(c.index) + ". " + (context + TimeText(time, c.name + (named + args)))
  {
    ArgsLaidOut(c);
    TypeLaidOut(c.res, ArgsText(c));
    ContextLaidOut(c.context, TimeText(PrintedTime(c, now), Body(c)));
    IndexLaidOut(c.index, ContextText(c.context, TimeText(PrintedTime(c, now), Body(c))));
  }

  lemma IndexLaidOut(index: int, u: string)
    ensures IndexText(index, u) == IntText(index) + ". " + u
  {
    MarksTogether(IntText(index), u);
  }

  lemma MarksTogether(number: string, u: string)
    ensures number + ("." + (" " + u)) == number + ". " + u
  {
  }

  lemma ContextLaidOut(context: nat, u: string)
    ensures ContextText(context, u) == (if context == 0 then "" else "@" + Digits(context, 16) + " ") + u
  {
  }

  lemma TypeLaidOut(res: ResField, u: string)
    ensures TypeText(res, u)
         == (match res case ByRef(t, false) => "<" + t + ">" case ByName(t) => "<" + t + ">" case _ => "") + u
  {
  }

  lemma ArgsLaidOut(c: CallLine)
    ensures ArgsText(c)
         == if c.kind.Alloc? then "(" + IntText(c.size) + ") = 0x" + Digits(c.id, 16) + "\n"
            else "(0x" + Digits(c.id, 16) + ")\n"
  {
    if c.kind.Alloc? { AllocLaidOut(IntText(c.size), Digits(c.id, 16)); }
  }

  lemma AllocLaidOut(size: string, id: string)
    ensures "(" + (size + (")" + (" " + ("=" + (" " + ("0x" + (id + "\n"))))))) == "(" + size + ") = 0x" + id + "\n"
  {
    assert ")" + (" " + ("=" + (" " + ("0x" + (id + "\n"))))) == ") = 0x" + id + "\n";
  }

  /** A record that is neither an allocation nor a free prints as a free. */
  lemma OthersPrintAsFrees(c: CallLine, now: nat)
    requires c.kind.Other?
    ensures CallText(c, now) == CallText(c.(kind := Free), now)
  {
  }

  /** A record of all ones prints as one made at the moment of printing; no other depends on that moment. */
  lemma TimeOfPrinting(c: CallLine, now: nat, later: nat)
    requires now < DAY && later < DAY
    ensures c.timestamp == UINT - 1 ==> CallText(c, now) == CallText(c.(timestamp := now), later)
    ensures c.timestamp != UINT - 1 ==> CallText(c, now) == CallText(c, later)
  {
  }

  /** The `width` characters from `i` on are digits and stand for `n`. */
  ghost predicate DigitsAt(s: string, i: nat, width: nat, n: nat)
    requires i + width <= |s|
  {
    AllDigits(s[i..i + width], 10) && NumberOf(s[i..i + width], 10) == n
  }

  /** Below 100 hours a clock has twelve characters with every digit and mark at its place. */
  lemma ClockShape(time: nat, u: string)
    requires 0 < time < 360_000_000
    ensures var r := TimeText(time, u);
            && |r| == 15 + |u| && r[0] == '[' && r[3] == ':' && r[6] == ':' && r[9] == '.' && r[13..15] == "] " && r[15..] == u
            && DigitsAt(r, 1, 2, time / 3_600_000) && DigitsAt(r, 4, 2, time / 60_000 % 60)
            && DigitsAt(r, 7, 2, time / 1000 % 60) && DigitsAt(r, 10, 3, time % 1000)
  {
    var h, m, sec, ms := time / 3_600_000, time / 60_000 % 60, time / 1000 % 60, time % 1000;
    PaddedWidth(h, 2);
    PaddedWidth(m, 2);
    PaddedWidth(sec, 2);
    PaddedWidth(ms, 3);
    ClockLaidOut(Padded(h, 2), Padded(m, 2), Padded(sec, 2), Padded(ms, 3), u);
  }

  lemma ClockLaidOut(h: string, m: string, s: string, ms: string, u: string)
    requires |h| == |m| == |s| == 2 && |ms| == 3
    ensures var r := "[" + (h + (":" + (m + (":" + (s + ("." + (ms + ("]" + (" " + u)))))))));
            && |r| == 15 + |u| && r[0] == '[' && r[3] == ':' && r[6] == ':' && r[9] == '.' && r[13..15] == "] " && r[15..] == u
            && r[1..3] == h && r[4..6] == m && r[7..9] == s && r[10..13] == ms
  {
  }

  ghost function Pow10(n: nat): nat {
    if n == 0 then 1 else 10 * Pow10(n - 1)
  }

  lemma PaddedWidth(n: nat, width: nat)
    requires width > 0 && n < Pow10(width)
    ensures |Padded(n, width)| == width && AllDigits(Padded(n, width), 10) && NumberOf(Padded(n, width), 10) == n
  {
    DigitsWidth(n, width);
    ZerosCountNothing(width - |Digits(n, 10)|, Digits(n, 10));
  }

  lemma {:induction false} DigitsWidth(n: nat, width: nat)
    requires width > 0 && n < Pow10(width)
    ensures |Digits(n, 10)| <= width
  {
    if n >= 10 { DigitsWidth(n / 10, width - 1); }
  }

  function CallText(c: CallLine, now: nat): string {
    IndexText(c.index, ContextText(c.context, TimeText(PrintedTime(c, now), Body(c))))
  }

  // ---------------------------------------------------------------- parsing

  predicate IsInt(n: int) {
    -INT_MAX - 1 <= n <= INT_MAX
  }

  /** A number stored in an unsigned field. */
  function Unsigned(n: int, bound: int): nat
    requires -bound < n < bound
  {
    if n < 0 then n + bound else n
  }

  /** A negative number counts down from the end of the field's range. */
  lemma UnsignedWraps(n: int, bound: int)
    requires -bound < n < bound
    ensures Unsigned(n, bound) < bound && (Unsigned(n, bound) == n || Unsigned(n, bound) == n + bound)
  {
  }

  ghost function ReadIndex(line: string): Step<(int, string)> {
    match ScanNumber(line, 10)
    case None => Failed
    case Some((n, rest)) =>
      if rest == "" || rest[0] != '.' then Failed else
        match AfterSpace(line)
        case None => Failed
        case Some(s) => if IsInt(n) then Ok((n, s)) else Undefined
  }

  ghost function ScanContext(s: string): Option<(int, string)> {
    ScanAfter(s, "@", 16)
  }

  /** The optional context mask. */
  ghost function ReadContext(s: string): Step<(nat, string)> {
    match ScanContext(s)
    case None => Ok((0, s))
    case Some((n, _)) =>
      match AfterSpace(s)
      case None => Failed
      case Some(u) => if -UINT < n < UINT then Ok((Unsigned(n, UINT), u)) else Undefined
  }

  ghost function ScanTime(s: string): Option<(int, int, int, int)> {
    match ScanAfter(s, "[", 10)
    case None => None
    case Some((h, s1)) =>
      match ScanAfter(s1, ":", 10)
      case None => None
      case Some((m, s2)) =>
        match ScanAfter(s2, ":", 10)
        case None => None
        case Some((sec, s3)) =>
          match ScanAfter(s3, ".", 10)
          case None => None
          case Some((ms, _)) => Some((h, m, sec, ms))
  }

  /** The milliseconds, if no intermediate result leaves the range of an integer. */
  function Milliseconds(h: int, m: int, s: int, ms: int): Option<int> {
    if IsInt(h * 3_600_000) && IsInt(m * 60_000) && IsInt(h * 3_600_000 + m * 60_000) && IsInt(s * 1000)
       && IsInt(h * 3_600_000 + m * 60_000 + s * 1000) && IsInt(ms) && IsInt(h * 3_600_000 + m * 60_000 + s * 1000 + ms)
    then Some(h * 3_600_000 + m * 60_000 + s * 1000 + ms) else None
  }

  /** The optional time. */
  ghost function ReadTime(s: string): Step<(nat, string)> {
    match ScanTime(s)
    case None => Ok((0, s))
    case Some((h, m, sec, ms)) =>
      match AfterSpace(s)
      case None => Failed
      case Some(u) => if Milliseconds(h, m, sec, ms).Some? then Ok((Unsigned(Milliseconds(h, m, sec, ms).value, UINT), u)) else Undefined
  }

  /** The name, the optional type and what begins at the parenthesis; a space precedes the text. */
  ghost function ReadBody(s: string): Step<(string, ResField, string)> {
    match Last(s, '(')
    case None => Failed
    case Some(k) =>
      if k > 0 && s[k - 1] == '>' then
        match Last(s, '<')
        case None => Undefined
        case Some(j) => if j < NAME_SIZE then ReadType(s[..j], s[j + 1..]) else Undefined
      else if k < NAME_SIZE then Ok((s[..k], NoField, s[k..])) else Undefined
  }

  /** The text up to a character, or all of it. */
  ghost function UpTo(s: string, c: char): string {
    match First(s, c)
    case None => s
    case Some(i) => s[..i]
  }

  ghost function ReadType(name: string, s: string): Step<(string, ResField, string)> {
    var t := UpTo(s, '>');
    if t == "" then Failed
    else if |t| >= NAME_SIZE then Undefined
    else
      match First(s, '(')
      case None => Failed
      case Some(i) => Ok((name, ByName(t), s[i..]))
  }

  ghost function ScanAlloc(s: string): Option<(int, int)> {
    match ScanAfter(s, "(", 10)
    case None => None
    case Some((size, s1)) =>
      match ScanText(s1, ")")
      case None => None
      case Some(s2) =>
        match ScanText(SkipSpaces(s2), "=")
        case None => None
        case Some(s3) =>
          match ScanAfter(SkipSpaces(s3), "0x", 16)
          case None => None
          case Some((id, _)) => Some((size, id))
  }

  ghost function ReadArgs(s: string): Step<(CallKind, int, nat)> {
    match ScanAlloc(s)
    case Some((size, id)) =>
      if IsInt(size) && -ULONG < id < ULONG then Ok((Alloc, size, Unsigned(id, ULONG))) else Undefined
    case None =>
      match ScanAfter(s, "(0x", 16)
      case None => Failed
      case Some((id, _)) => if -ULONG < id < ULONG then Ok((Free, 0, Unsigned(id, ULONG))) else Undefined
  }

  /** The fields between the index and the body. */
  ghost function ReadFields(s: string): Step<(nat, nat, string)> {
    var context :- ReadContext(s);
    var time :- ReadTime(context.1);
    Ok((context.0, time.0, time.1))
  }

  ghost function ReadCall(line: string): Step<CallLine> {
    var index :- ReadIndex(line);
    var fields :- ReadFields(index.1);
    var body :- ReadBody(fields.2);
    var args :- ReadArgs(body.2);
    Ok(CallLine(index.0, args.0, fields.0, fields.1, body.0, body.1, args.2, args.1))
  }

  // ---------------------------------------------------------------- when a line is read back

  /** The type as the parser gives it: by name, or not at all if it is hidden or the record has none. */
  function TypeAsRead(res: ResField): ResField {
    match res
    case ByName(t) => ByName(t)
    case ByRef(t, false) => ByName(t)
    case _ => NoField
  }

  function AsRead(c: CallLine): CallLine {
    c.(res := TypeAsRead(c.res))
  }

  /** A field that is not printed is not found in the text that takes its place. */
  ghost predicate Unmistaken(c: CallLine) {
    c.timestamp == 0 ==> ScanTime(Body(c)).None? && (c.context == 0 ==> ScanContext(Body(c)).None?)
  }

  /** The text from the first parenthesis behind the beginning of a type: it should be the arguments. */
  ghost function ParenIn(t: string, a: string): string {
    match First(t, '(')
    case None => a
    case Some(i) => t[i..] + (">" + a)
  }

  /** The name and the type can be told apart. */
  ghost predicate TypeClear(c: CallLine) {
    match Shown(c.res)
    case None => c.name != "" ==> c.name[|c.name| - 1] != '>'
    case Some(t) =>
      && t != "" && |t| < NAME_SIZE && '<' !in t && '>' !in t
      && (First(t, '(').Some? ==> ReadArgs(ParenIn(t, ArgsText(c))) == Ok((c.kind, c.size, c.id)))
  }

  /** Only an allocation has its size printed, and nothing but a free lacks one. */
  predicate KindClear(c: CallLine) {
    c.kind.Alloc? || (c.kind.Free? && c.size == 0)
  }

  ghost predicate Printable(c: CallLine) {
    KindClear(c) && c.timestamp <= INT_MAX && |c.name| < NAME_SIZE && TypeClear(c) && Unmistaken(c)
  }

  // ---------------------------------------------------------------- numbers

  lemma {:induction false} SpanExact(s: string, u: string, radix: nat)
    requires AllDigits(s, radix) && (u != "" ==> !IsDigit(u[0], radix))
    ensures Span(s + u, radix) == |s|
  {
    if s == "" {
      assert s + u == u;
    } else {
      assert (s + u)[1..] == s[1..] + u;
      SpanExact(s[1..], u, radix);
    }
  }

  lemma DigitsScanned(s: string, u: string, radix: nat)
    requires s != "" && AllDigits(s, radix) && (u != "" ==> !IsDigit(u[0], radix))
    ensures ScanDigits(s + u, radix) == Some((NumberOf(s, radix), u))
  {
    SpanExact(s, u, radix);
    assert (s + u)[..|s|] == s && (s + u)[|s|..] == u;
  }

  /** A number text that begins with no blank, sign or base prefix. */
  lemma PlainNumber(s: string, radix: nat)
    requires s != "" && IsDigit(s[0], radix) && SkipBase(s, radix) == s
    ensures ScanNumber(s, radix) == match ScanDigits(s, radix) case None => None case Some((n, rest)) => Some((n as int, rest))
  {
    assert SkipSpaces(s) == s;
  }

  lemma NoBase(s: string, u: string, radix: nat)
    requires |s| == 1 || (|s| > 1 && s[0] != '0')
    requires u != "" ==> u[0] != 'x' && u[0] != 'X'
    ensures SkipBase(s + u, radix) == s + u
  {
  }

  lemma NatScanned(n: nat, u: string, radix: nat)
    requires radix == 10 || radix == 16
    requires u != "" ==> !IsDigit(u[0], radix) && u[0] != 'x' && u[0] != 'X'
    ensures ScanNumber(Digits(n, radix) + u, radix) == Some((n as int, u))
  {
    var s := Digits(n, radix);
    NoBase(s, u, radix);
    DigitsScanned(s, u, radix);
    PlainNumber(s + u, radix);
  }

  lemma NegativeScanned(s: string)
    ensures ScanNumber("-" + s, 10) == match ScanDigits(s, 10) case None => None case Some((n, rest)) => Some((-1 * n, rest))
  {
    var t := "-" + s;
    assert t[0] == '-' && t[1..] == s;
    assert SkipSpaces(t) == t;
  }

  lemma IntScanned(n: int, u: string)
    requires u != "" ==> !IsDigit(u[0], 10) && u[0] != 'x' && u[0] != 'X'
    ensures ScanNumber(IntText(n) + u, 10) == Some((n, u))
  {
    if n >= 0 {
      NatScanned(n, u, 10);
    } else {
      var s := Digits(-n, 10);
      assert IntText(n) + u == "-" + (s + u);
      DigitsScanned(s, u, 10);
      NegativeScanned(s + u);
    }
  }

  lemma {:induction false} ZerosCountNothing(k: nat, s: string)
    requires AllDigits(s, 10)
    ensures AllDigits(Zeros(k) + s, 10) && NumberOf(Zeros(k) + s, 10) == NumberOf(s, 10)
    decreases |s|, k
  {
    if s == "" {
      assert Zeros(k) + s == Zeros(k);
      if k > 0 {
        var front := Zeros(k - 1);
        ZerosCountNothing(k - 1, "");
        assert front + "" == front;
        assert Zeros(k)[..k - 1] == front;
      }
    } else {
      var n := |s| - 1;
      ZerosCountNothing(k, s[..n]);
      assert (Zeros(k) + s)[..k + n] == Zeros(k) + s[..n];
    }
  }

  lemma PaddedScanned(n: nat, width: nat, u: string)
    requires u != "" ==> !IsDigit(u[0], 10)
    ensures ScanNumber(Padded(n, width) + u, 10) == Some((n as int, u))
  {
    var s := Digits(n, 10);
    var k := if |s| < width then width - |s| else 0;
    ZerosCountNothing(k, s);
    assert Padded(n, width) == Zeros(k) + s;
    var p := Padded(n, width);
    assert (p + u)[0] == p[0] && IsDigit(p[0], 10);
    assert SkipSpaces(p + u) == p + u;
    DigitsScanned(p, u, 10);
  }

  /** A blank, as C has it. */
  predicate IsBlank(c: char) {
    c in " \t\n\r" || c == 11 as char || c == 12 as char
  }

  lemma {:induction false} BlanksSkipped(blanks: string, u: string)
    requires forall i :: 0 <= i < |blanks| ==> IsBlank(blanks[i])
    requires u != "" ==> !IsBlank(u[0])
    ensures SkipSpaces(blanks + u) == u
  {
    if blanks == "" {
      assert blanks + u == u;
    } else {
      assert (blanks + u)[1..] == blanks[1..] + u;
      BlanksSkipped(blanks[1..], u);
    }
  }

  /** For base sixteen a prefix, then digits up to the first other character. */
  lemma PrefixedScanned(prefix: string, digits: string, u: string, radix: nat)
    requires radix == 10 || radix == 16
    requires if radix == 16 then prefix in {"0x", "0X"} else prefix == ""
    requires digits != "" && AllDigits(digits, radix) && (u != "" ==> !IsDigit(u[0], radix))
    ensures var number := prefix + (digits + u);
            number != "" && IsDigit(number[0], 10) && ScanDigits(SkipBase(number, radix), radix) == Some((NumberOf(digits, radix), u))
  {
    var number := prefix + (digits + u);
    DigitsScanned(digits, u, radix);
    if radix == 16 {
      assert number[2..] == digits + u;
    } else {
      assert number == digits + u && number[0] == digits[0];
    }
  }

  /** Blanks, a sign, for base sixteen a prefix, and digits up to the first other character make a number. */
  lemma NumberScanned(blanks: string, sign: string, prefix: string, digits: string, u: string, radix: nat)
    requires radix == 10 || radix == 16
    requires forall i :: 0 <= i < |blanks| ==> IsBlank(blanks[i])
    requires sign in {"", "+", "-"} && (if radix == 16 then prefix in {"0x", "0X"} else prefix == "")
    requires digits != "" && AllDigits(digits, radix) && (u != "" ==> !IsDigit(u[0], radix))
    ensures ScanNumber(blanks + (sign + (prefix + (digits + u))), radix)
         == Some(((if sign == "-" then -1 else 1) * NumberOf(digits, radix), u))
  {
    PrefixedScanned(prefix, digits, u, radix);
    SignedScanned(blanks, sign, prefix + (digits + u), NumberOf(digits, radix), u, radix);
  }

  lemma SignedScanned(blanks: string, sign: string, number: string, n: nat, u: string, radix: nat)
    requires forall i :: 0 <= i < |blanks| ==> IsBlank(blanks[i])
    requires sign in {"", "+", "-"} && number != "" && IsDigit(number[0], 10)
    requires ScanDigits(SkipBase(number, radix), radix) == Some((n, u))
    ensures ScanNumber(blanks + (sign + number), radix) == Some(((if sign == "-" then -1 else 1) * n, u))
  {
    BlanksSkipped(blanks, sign + number);
    if sign == "" {
      assert sign + number == number;
    } else {
      assert (sign + number)[1..] == number;
    }
  }

  lemma TextScanned(text: string, u: string)
    ensures ScanText(text + u, text) == Some(u)
  {
    assert (text + u)[..|text|] == text && (text + u)[|text|..] == u;
  }

  lemma {:induction false} SpaceNotIn(s: string, u: string)
    requires ' ' !in s
    ensures AfterSpace(s + u) == AfterSpace(u)
  {
    var t := s + u;
    if s == "" {
      assert t == u;
    } else {
      assert t[0] == s[0] && t[1..] == s[1..] + u;
      SpaceNotIn(s[1..], u);
    }
  }

  lemma SpaceFound(u: string)
    ensures AfterSpace(" " + u) == Some(u)
  {
    assert (" " + u)[1..] == u;
  }

  lemma NoSpaceInDigits(s: string, radix: nat)
    requires AllDigits(s, radix)
    ensures ' ' !in s && '(' !in s && '<' !in s
  {
  }

  // ---------------------------------------------------------------- the fields in front

  lemma IndexRead(n: int, u: string)
    requires IsInt(n)
    ensures ReadIndex(IndexText(n, u)) == Ok((n, u))
  {
    var rest := "." + (" " + u);
    IntScanned(n, rest);
    IntHasNo(n);
    SpaceNotIn(IntText(n), rest);
    SpaceNotIn(".", " " + u);
    SpaceFound(u);
  }

  lemma IntHasNo(n: int)
    ensures ' ' !in IntText(n) && '(' !in IntText(n) && '<' !in IntText(n)
  {
    NoSpaceInDigits(Digits(if n < 0 then -n else n, 10), 10);
  }

  lemma ContextRead(n: nat, u: string)
    requires 0 < n < UINT
    ensures ReadContext(ContextText(n, u)) == Ok((n, u))
  {
    var d := Digits(n, 16);
    HexAfter("@", n, " " + u);
    NoSpaceInDigits(d, 16);
    SpaceNotIn("@", d + (" " + u));
    SpaceNotIn(d, " " + u);
    SpaceFound(u);
  }

  /** A literal and a number in front of more text. */
  lemma PaddedAfter(text: string, n: nat, width: nat, u: string)
    requires u != "" ==> !IsDigit(u[0], 10)
    ensures ScanAfter(text + (Padded(n, width) + u), text, 10) == Some((n as int, u))
  {
    TextScanned(text, Padded(n, width) + u);
    PaddedScanned(n, width, u);
  }

  lemma ClockScanned(h: nat, m: nat, s: nat, ms: nat, u: string)
    ensures ScanTime(ClockText(h, m, s, ms, u)) == Some((h, m, s, ms))
  {
    var s4 := "]" + (" " + u);
    var s3 := "." + (Padded(ms, 3) + s4);
    var s2 := ":" + (Padded(s, 2) + s3);
    var s1 := ":" + (Padded(m, 2) + s2);
    PaddedAfter(".", ms, 3, s4);
    PaddedAfter(":", s, 2, s3);
    PaddedAfter(":", m, 2, s2);
    PaddedAfter("[", h, 2, s1);
  }

  lemma TimeParts(time: nat)
    requires time < UINT
    ensures Milliseconds(time / 3_600_000, time / 60_000 % 60, time / 1000 % 60, time % 1000)
         == if time <= INT_MAX then Some(time) else None
  {
    TimeSum(time);
    PartsAddUp(time / 3_600_000, time / 60_000 % 60, time / 1000 % 60, time % 1000);
  }

  lemma TimeSum(time: nat)
    ensures time == 3_600_000 * (time / 3_600_000) + 60_000 * (time / 60_000 % 60) + 1000 * (time / 1000 % 60) + time % 1000
  {
    ClockDivided(time);
    var left := time % 3_600_000;
    assert time == 3_600_000 * (time / 3_600_000) + left;
    assert left == 60_000 * (left / 60_000) + left % 60_000;
  }

  lemma PartsAddUp(h: nat, m: nat, s: nat, ms: nat)
    ensures var sum := h * 3_600_000 + m * 60_000 + s * 1000 + ms;
            Milliseconds(h, m, s, ms) == if sum <= INT_MAX then Some(sum) else None
  {
  }

  lemma PaddedHasNo(n: nat, width: nat)
    ensures ' ' !in Padded(n, width)
  {
    var s := Digits(n, 10);
    NoSpaceInDigits(s, 10);
    NoSpaceInDigits(Zeros(if |s| < width then width - |s| else 0), 10);
  }

  lemma ClockSpace(h: nat, m: nat, s: nat, ms: nat, u: string)
    ensures AfterSpace(ClockText(h, m, s, ms, u)) == Some(u)
  {
    var s4 := "]" + (" " + u);
    var s3 := "." + (Padded(ms, 3) + s4);
    var s2 := ":" + (Padded(s, 2) + s3);
    var s1 := ":" + (Padded(m, 2) + s2);
    SpaceFound(u);
    SpaceNotIn("]", " " + u);
    FieldSpace(".", ms, 3, s4);
    FieldSpace(":", s, 2, s3);
    FieldSpace(":", m, 2, s2);
    FieldSpace("[", h, 2, s1);
  }

  lemma FieldSpace(text: string, n: nat, width: nat, u: string)
    requires ' ' !in text
    ensures AfterSpace(text + (Padded(n, width) + u)) == AfterSpace(u)
  {
    PaddedHasNo(n, width);
    SpaceNotIn(text, Padded(n, width) + u);
    SpaceNotIn(Padded(n, width), u);
  }

  /** A printed time is read back if an integer can hold it; if not, the sum of its parts overflows. */
  lemma TimeRead(time: nat, u: string)
    requires 0 < time < UINT
    ensures ReadTime(TimeText(time, u)) == if time <= INT_MAX then Ok((time, u)) else Undefined
  {
    var h, m, s, ms := time / 3_600_000, time / 60_000 % 60, time / 1000 % 60, time % 1000;
    TimeParts(time);
    ClockRead(h, m, s, ms, u);
  }

  lemma ClockRead(h: nat, m: nat, s: nat, ms: nat, u: string)
    ensures var sum := Milliseconds(h, m, s, ms);
            ReadTime(ClockText(h, m, s, ms, u)) == if sum.Some? then Ok((Unsigned(sum.value, UINT), u)) else Undefined
  {
    ClockScanned(h, m, s, ms, u);
    ClockSpace(h, m, s, ms, u);
  }

  // ---------------------------------------------------------------- the arguments

  lemma HexAfter(text: string, n: nat, u: string)
    requires u != "" && !IsDigit(u[0], 16) && u[0] != 'x' && u[0] != 'X'
    ensures ScanAfter(text + (Digits(n, 16) + u), text, 16) == Some((n as int, u))
  {
    TextScanned(text, Digits(n, 16) + u);
    NatScanned(n, u, 16);
  }

  lemma AllocRead(size: int, id: nat)
    ensures ScanAlloc(AllocText(size, id)) == Some((size, id))
  {
    var s4 := "0x" + (Digits(id, 16) + "\n");
    var s3 := "=" + (" " + s4);
    var s1 := ")" + (" " + s3);
    TextScanned("(", IntText(size) + s1);
    IntScanned(size, s1);
    TextScanned(")", " " + s3);
    OneSpace(s3);
    TextScanned("=", " " + s4);
    OneSpace(s4);
    HexAfter("0x", id, "\n");
  }

  lemma OneSpace(u: string)
    requires u != "" && !IsSpace(u[0])
    ensures SkipSpaces(" " + u) == u
  {
    assert (" " + u)[1..] == u;
    assert SkipSpaces(u) == u;
  }

  /** The text of a free is not that of an allocation: a zero and then no parenthesis. */
  lemma FreeNotAlloc(u: string)
    ensures ScanAlloc("(0x" + u).None?
  {
    var s := "(0x" + u;
    var x := "x" + u;
    assert s == "(" + ("0" + x);
    TextScanned("(", "0" + x);
    assert SkipSpaces("0" + x) == "0" + x;
    DigitsScanned("0", x, 10);
    assert ScanNumber("0" + x, 10) == Some((NumberOf("0", 10) as int, x));
  }

  lemma FreeRead(id: nat)
    ensures ScanAlloc(FreeText(id)).None? && ScanAfter(FreeText(id), "(0x", 16) == Some((id as int, ")\n"))
  {
    FreeNotAlloc(Digits(id, 16) + ")\n");
    HexAfter("(0x", id, ")\n");
  }

  lemma ArgsRead(c: CallLine)
    requires Typed(c)
    ensures ReadArgs(ArgsText(c)) == Ok(if c.kind.Alloc? then (Alloc, c.size, c.id) else (Free, 0, c.id))
  {
    if c.kind.Alloc? {
      AllocArgs(c.size, c.id);
    } else {
      FreeArgs(c.id);
    }
  }

  lemma AllocArgs(size: int, id: nat)
    requires IsInt(size) && id < ULONG
    ensures ReadArgs(AllocText(size, id)) == Ok((Alloc, size, id))
  {
    AllocRead(size, id);
  }

  lemma FreeArgs(id: nat)
    requires id < ULONG
    ensures ReadArgs(FreeText(id)) == Ok((Free, 0, id))
  {
    FreeRead(id);
  }

  // ---------------------------------------------------------------- the name and the type

  lemma LastIs(s: string, k: nat, c: char)
    requires k < |s| && s[k] == c && c !in s[k + 1..]
    ensures Last(s, c) == Some(k)
  {
    LastFound(s, c);
  }

  lemma FirstIs(s: string, k: nat, c: char)
    requires k < |s| && s[k] == c && c !in s[..k]
    ensures First(s, c) == Some(k)
  {
    FirstFound(s, c);
  }

  ghost predicate SuffixOf(s: string, t: string) {
    |s| <= |t| && s == t[|t| - |s|..]
  }

  lemma LastInSuffix(s: string, t: string, c: char)
    requires SuffixOf(s, t) && Last(s, c).Some?
    ensures Last(t, c) == Some(Last(s, c).value + |t| - |s|)
  {
    LastFound(s, c);
    var k, d := Last(s, c).value, |t| - |s|;
    DropTwice(t, d, k + 1);
    LastIs(t, d + k, c);
  }

  lemma DropTwice(t: string, d: nat, k: nat)
    requires d + k <= |t|
    ensures t[d..][k..] == t[d + k..]
  {
  }

  lemma {:induction false} AfterSpaceSuffix(s: string)
    ensures AfterSpace(s).Some? ==> SuffixOf(AfterSpace(s).value, s) && |AfterSpace(s).value| < |s|
  {
    if s != "" && s[0] != ' ' {
      AfterSpaceSuffix(s[1..]);
    }
  }

  /** The arguments begin with their only parenthesis and have no angle bracket. */
  lemma ArgsHasNo(c: CallLine)
    ensures ArgsText(c) != "" && ArgsText(c)[0] == '(' && '(' !in ArgsText(c)[1..] && '<' !in ArgsText(c)
  {
    var d := Digits(c.id, 16);
    NoSpaceInDigits(d, 16);
    if c.kind.Alloc? {
      IntHasNo(c.size);
      var s4 := d + "\n";
      var s3 := "=" + (" " + ("0x" + s4));
      HasNoMark(IntText(c.size), ")" + (" " + s3));
    } else {
      HasNoMark("0x", d + ")\n");
      assert FreeText(c.id) == "(" + ("0x" + (d + ")\n"));
    }
  }

  lemma HasNoMark(s: string, u: string)
    requires '(' !in s && '(' !in u && '<' !in s && '<' !in u
    ensures var a := "(" + (s + u); '(' !in a[1..] && '<' !in a
  {
    assert ("(" + (s + u))[1..] == s + u;
  }

  /** Where the arguments begin, and where the type does. */
  lemma BodyMarks(c: CallLine)
    ensures var b := Body(c);
            Last(b, '(') == Some(|b| - |ArgsText(c)|) && b[|b| - |ArgsText(c)|..] == ArgsText(c)
    ensures Shown(c.res).None? ==> |Body(c)| == |c.name| + |ArgsText(c)| && Body(c)[..|c.name|] == c.name
    ensures Shown(c.res).Some? ==> Body(c)[|Body(c)| - |ArgsText(c)| - 1] == '>' && |Body(c)| > |ArgsText(c)|
  {
    ArgsHasNo(c);
    var b, a := Body(c), ArgsText(c);
    var k := |b| - |a|;
    assert b[k..] == a;
    assert b[k + 1..] == a[1..];
    LastIs(b, k, '(');
  }

  lemma TypeMark(c: CallLine, t: string)
    requires Shown(c.res) == Some(t) && '<' !in t
    ensures Last(Body(c), '<') == Some(|c.name|) && Body(c)[..|c.name|] == c.name
    ensures Body(c)[|c.name| + 1..] == t + (">" + ArgsText(c))
  {
    ArgsHasNo(c);
    var u := t + (">" + ArgsText(c));
    MarkBehind(c.name, '<', u);
  }

  lemma MarkBehind(name: string, mark: char, u: string)
    requires mark !in u
    ensures var b := name + ([mark] + u); Last(b, mark) == Some(|name|) && b[..|name|] == name && b[|name| + 1..] == u
  {
    var b := name + ([mark] + u);
    assert b[|name| + 1..] == u;
    LastIs(b, |name|, mark);
  }

  /** What the parser takes for a type is not empty and has no angle brackets. */
  lemma TypeFound(s: string)
    requires ReadBody(s).Ok? && ReadBody(s).value.1 != NoField
    ensures ReadBody(s).value.1.ByName?
    ensures var t := ReadBody(s).value.1.name; t != "" && |t| < NAME_SIZE && '<' !in t && '>' !in t
    ensures Last(s, '<') == Some(|ReadBody(s).value.0|)
  {
    LastFound(s, '<');
    var j := Last(s, '<').value;
    UpToFound(s[j + 1..]);
  }

  lemma UpToFound(u: string)
    ensures '>' !in UpTo(u, '>') && ('<' !in u ==> '<' !in UpTo(u, '>'))
  {
    FirstFound(u, '>');
  }

  lemma NoTypeFound(s: string)
    requires ReadBody(s).Ok? && ReadBody(s).value.1 == NoField
    ensures Last(s, '(') == Some(|ReadBody(s).value.0|)
  {
  }

  /** A body read from inside the printed one has a shorter name, or another type. */
  lemma ShorterName(c: CallLine, s: string)
    requires SuffixOf(s, Body(c)) && |s| < |Body(c)| && ReadBody(s).Ok?
    ensures ReadBody(s).value.0 != c.name || ReadBody(s).value.1 != AsRead(c).res
  {
    var r := ReadBody(s).value;
    if r.1 == NoField {
      NoTypeFound(s);
      LastInSuffix(s, Body(c), '(');
      BodyMarks(c);
    } else {
      TypeFound(s);
      LastInSuffix(s, Body(c), '<');
      if r.1 == AsRead(c).res { TypeMark(c, r.1.name); }
    }
  }

  /** The printed body is read back exactly when name and type can be told apart. */
  lemma BodyRead(c: CallLine)
    requires Typed(c)
    ensures BodyArrives(c) <==> |c.name| < NAME_SIZE && TypeClear(c) && KindClear(c)
  {
    ArgsRead(c);
    if Shown(c.res).None? {
      UntypedRead(c);
    } else {
      TypedRead(c, Shown(c.res).value);
    }
  }

  ghost predicate BodyGives(b: string, d: CallLine) {
    var r := ReadBody(b);
    r.Ok? && r.value.0 == d.name && r.value.1 == d.res && ReadArgs(r.value.2) == Ok((d.kind, d.size, d.id))
  }

  ghost predicate BodyArrives(c: CallLine) {
    BodyGives(Body(c), AsRead(c))
  }

  lemma UntypedShape(s: string, k: nat)
    requires Last(s, '(') == Some(k) && (k > 0 ==> s[k - 1] != '>')
    ensures ReadBody(s) == if k < NAME_SIZE then Ok((s[..k], NoField, s[k..])) else Undefined
  {
  }

  lemma TypedShape(s: string, k: nat, j: nat)
    requires Last(s, '(') == Some(k) && k > 0 && s[k - 1] == '>' && Last(s, '<') == Some(j)
    ensures ReadBody(s) == if j < NAME_SIZE then ReadType(s[..j], s[j + 1..]) else Undefined
  {
  }

  lemma BracketShape(s: string, k: nat)
    requires Last(s, '(') == Some(k) && k > 0 && s[k - 1] == '>'
    ensures ReadBody(s).Ok? ==> ReadBody(s).value.1 != NoField
  {
  }

  lemma UntypedRead(c: CallLine)
    requires Shown(c.res).None?
    ensures var r := ReadBody(Body(c));
            if |c.name| < NAME_SIZE && TypeClear(c) then r == Ok((c.name, NoField, ArgsText(c)))
            else r.Ok? ==> r.value.1 != NoField
  {
    BodyMarks(c);
    var s, k := Body(c), |c.name|;
    assert k > 0 ==> s[k - 1] == c.name[k - 1];
    if TypeClear(c) {
      UntypedShape(s, k);
    } else {
      BracketShape(s, k);
    }
  }

  lemma TypedRead(c: CallLine, t: string)
    requires Typed(c) && Shown(c.res) == Some(t)
    ensures BodyArrives(c) <==> |c.name| < NAME_SIZE && TypeClear(c) && KindClear(c)
  {
    var b, a := Body(c), ArgsText(c);
    if BodyArrives(c) { TypeFound(b); }
    if t != "" && |t| < NAME_SIZE && '<' !in t && '>' !in t {
      BodyWithType(c, t);
      ArgsHasNo(c);
      TypeRead(c.name, t, a);
      ArgsRead(c);
      KindRead(ParenIn(t, a));
    }
  }

  lemma BodyWithType(c: CallLine, t: string)
    requires Shown(c.res) == Some(t) && '<' !in t
    ensures ReadBody(Body(c)) == if |c.name| < NAME_SIZE then ReadType(c.name, t + (">" + ArgsText(c))) else Undefined
  {
    var b, a, name := Body(c), ArgsText(c), c.name;
    BodyMarks(c);
    var k := Last(b, '(').value;
    assert k > 0 && b[k - 1] == '>';
    TypeMark(c, t);
    TypedShape(b, k, |name|);
  }

  lemma TypeRead(name: string, t: string, a: string)
    requires t != "" && |t| < NAME_SIZE && '>' !in t && a != "" && a[0] == '('
    ensures ReadType(name, t + (">" + a)) == Ok((name, ByName(t), ParenIn(t, a)))
  {
    var s := t + (">" + a);
    assert s[..|t|] == t && s[|t|] == '>' && s[|t| + 1] == '(' && s[|t| + 1..] == a;
    FirstIs(s, |t|, '>');
    FirstFound(t, '(');
    if First(t, '(').Some? {
      var i := First(t, '(').value;
      assert s[..i] == t[..i] && s[i..] == t[i..] + (">" + a);
      FirstIs(s, i, '(');
    } else {
      assert s[..|t| + 1] == t + ">";
      FirstIs(s, |t| + 1, '(');
    }
  }

  lemma KindRead(s: string)
    ensures ReadArgs(s).Ok? ==> ReadArgs(s).value.0.Alloc? || (ReadArgs(s).value.0.Free? && ReadArgs(s).value.1 == 0)
  {
  }

  // ---------------------------------------------------------------- the whole line

  lemma AfterNeeds(s: string, c: char, radix: nat)
    ensures ScanAfter(s, [c], radix).Some? ==> s != "" && s[0] == c
  {
    if 1 <= |s| { assert s[..1][0] == s[0]; }
  }

  lemma ScanNeeds(s: string)
    ensures ScanContext(s).Some? ==> s != "" && s[0] == '@'
    ensures ScanTime(s).Some? ==> s != "" && s[0] == '['
  {
    AfterNeeds(s, '@', 16);
    AfterNeeds(s, '[', 10);
  }

  /** The parser reaches the body and no further exactly when no field is mistaken. */
  lemma FieldsRead(context: nat, time: nat, b: string)
    requires context < UINT && time <= INT_MAX
    ensures var r := ReadFields(ContextText(context, TimeText(time, b)));
            var clear := time == 0 ==> ScanTime(b).None? && (context == 0 ==> ScanContext(b).None?);
            if clear then r == Ok((context, time, b)) else r.Ok? ==> SuffixOf(r.value.2, b) && |r.value.2| < |b|
  {
    var t := TimeText(time, b);
    if context > 0 { ContextRead(context, t); }
    if time > 0 {
      TimeRead(time, b);
      assert t[0] == '[';
      ScanNeeds(t);
    } else {
      MistakenShortens(b);
    }
  }

  lemma MistakenShortens(b: string)
    ensures ReadTime(b).Ok? ==> SuffixOf(ReadTime(b).value.1, b)
    ensures ReadTime(b).Ok? && ScanTime(b).Some? ==> |ReadTime(b).value.1| < |b|
    ensures ReadFields(b).Ok? ==> SuffixOf(ReadFields(b).value.2, b)
    ensures ReadFields(b).Ok? && (ScanContext(b).Some? || ScanTime(b).Some?) ==> |ReadFields(b).value.2| < |b|
  {
    AfterSpaceSuffix(b);
    if ReadContext(b).Ok? {
      var u := ReadContext(b).value.1;
      AfterSpaceSuffix(u);
      if ReadTime(u).Ok? {
        SuffixTrans(ReadTime(u).value.1, u, b);
      }
    }
  }

  lemma SuffixTrans(s: string, t: string, u: string)
    requires SuffixOf(s, t) && SuffixOf(t, u)
    ensures SuffixOf(s, u)
  {
    DropTwice(u, |u| - |t|, |t| - |s|);
  }

  lemma LateTimeUndefined(context: nat, time: nat, b: string)
    requires context < UINT && INT_MAX < time < UINT
    ensures ReadFields(ContextText(context, TimeText(time, b))) == Undefined
  {
    var t := TimeText(time, b);
    if context > 0 { ContextRead(context, t); }
    TimeRead(time, b);
    assert t[0] == '[';
    ScanNeeds(t);
  }

  /** A line whose fields are mistaken does not give the record back. */
  lemma MistakenLine(c: CallLine, line: string, s: string)
    requires ReadIndex(line) == Ok((c.index, s)) && Typed(c)
    requires ReadFields(s).Ok? ==> SuffixOf(ReadFields(s).value.2, Body(c)) && |ReadFields(s).value.2| < |Body(c)|
    ensures ReadCall(line) != Ok(AsRead(c))
  {
    if ReadFields(s).Ok? && ReadBody(ReadFields(s).value.2).Ok? {
      ShorterName(c, ReadFields(s).value.2);
    }
  }

  lemma ClearLine(d: CallLine, line: string, s: string, time: nat, b: string)
    requires ReadIndex(line) == Ok((d.index, s)) && ReadFields(s) == Ok((d.context, time, b))
    ensures ReadCall(line) == Ok(d) <==> time == d.timestamp && BodyGives(b, d)
  {
  }

  /** A printed call is read back as it was if and only if it is printable. */
  lemma CallRoundTrip(c: CallLine, now: nat)
    requires Typed(c) && now < DAY
    ensures ReadCall(CallText(c, now)) == Ok(AsRead(c)) <==> Printable(c)
  {
    var time := PrintedTime(c, now);
    var line, s := CallText(c, now), ContextText(c.context, TimeText(time, Body(c)));
    IndexRead(c.index, s);
    if time > INT_MAX {
      LateTimeUndefined(c.context, time, Body(c));
    } else {
      FieldsRead(c.context, time, Body(c));
      BodyRead(c);
      if ReadFields(s) == Ok((c.context, time, Body(c))) {
        ClearLine(AsRead(c), line, s, time, Body(c));
      } else {
        MistakenLine(c, line, s);
      }
    }
  }

  /** Names that begin with neither `@` nor `[` are never mistaken for a field. */
  lemma PlainNames(c: CallLine)
    requires c.name != "" ==> c.name[0] != '@' && c.name[0] != '['
    ensures Unmistaken(c)
  {
    ArgsHasNo(c);
    ScanNeeds(Body(c));
    assert c.name != "" ==> Body(c)[0] == c.name[0];
  }

  /** A type without a parenthesis is clear when it is not empty, fits and has no brackets. */
  lemma PlainTypes(c: CallLine, t: string)
    requires Shown(c.res) == Some(t) && '(' !in t
    ensures TypeClear(c) <==> t != "" && |t| < NAME_SIZE && '<' !in t && '>' !in t
  {
    FirstFound(t, '(');
  }

  /** A plain name and a plain type, a time below 2^31 and no size for a free. */
  predicate IsPlain(c: CallLine) {
    && KindClear(c) && c.timestamp <= INT_MAX && |c.name| < NAME_SIZE
    && (c.name != "" ==> c.name[0] != '@' && c.name[0] != '[' && c.name[|c.name| - 1] != '>')
    && match Shown(c.res)
       case None => true
       case Some(t) => t != "" && |t| < NAME_SIZE && '<' !in t && '>' !in t && '(' !in t
  }

  lemma PlainIsPrintable(c: CallLine)
    requires IsPlain(c)
    ensures Printable(c)
  {
    PlainNames(c);
    if Shown(c.res).Some? { PlainTypes(c, Shown(c.res).value); }
  }

  /** Plain records are read back. */
  lemma PlainRoundTrip(c: CallLine, now: nat)
    requires Typed(c) && now < DAY && IsPlain(c)
    ensures ReadCall(CallText(c, now)) == Ok(AsRead(c))
  {
    PlainIsPrintable(c);
    CallRoundTrip(c, now);
  }

  /** A name that begins so may be mistaken: it is cut at its space and its number becomes the context. */
  lemma NameMistaken(c: CallLine, now: nat)
    requires Typed(c) && now < DAY && c.context == 0 && c.timestamp == 0 && c.name == "@b a"
    ensures ReadCall(CallText(c, now)) != Ok(AsRead(c))
  {
    NameAsContext(TypeText(c.res, ArgsText(c)));
    CallRoundTrip(c, now);
  }

  lemma NameAsContext(rest: string)
    ensures ScanContext("@b a" + rest).Some?
  {
    var u := " a" + rest;
    assert "@b a" + rest == "@" + ("b" + u);
    TextScanned("@", "b" + u);
    LetterScanned(u);
  }

  lemma LetterScanned(u: string)
    requires u != "" && u[0] == ' '
    ensures ScanNumber("b" + u, 16).Some?
  {
    assert SkipSpaces("b" + u) == "b" + u && SkipBase("b" + u, 16) == "b" + u;
    DigitsScanned("b", u, 16);
  }

  // ---------------------------------------------------------------- the formatter and the parser

  lemma Appended(line: string, piece: string, rest: string)
    ensures line + (piece + rest) == (line + piece) + rest
  {
  }

  lemma AppendedThree(line: string, a: string, b: string, c: string, rest: string)
    ensures line + (a + (b + (c + rest))) == (line + a + b + c) + rest
  {
    Appended(line, a, b + (c + rest));
    Appended(line + a, b, c + rest);
    Appended(line + a + b, c, rest);
  }

  /** Appends the fields to a line; `None` when they do not fit its buffer. */
  method PrintCall(c: CallLine, now: nat) returns (r: Option<string>)
    requires Typed(c) && now < DAY
    ensures r == if |CallText(c, now)| <= LINE_SIZE then Some(CallText(c, now)) else None
  {
    ghost var text := CallText(c, now);
    var time := if c.timestamp == UINT - 1 then now else c.timestamp;
    var line := PrintFront(c, time, Body(c));
    assert text == line + Body(c);
    Appended(line, c.name, TypeText(c.res, ArgsText(c)));
    line := line + c.name;
    if Shown(c.res).Some? {
      AppendedThree(line, "<", Shown(c.res).value, ">", ArgsText(c));
      line := line + "<" + Shown(c.res).value + ">";
    }
    line := line + ArgsText(c);
    r := if |line| <= LINE_SIZE then Some(line) else None;
  }

  /** The fields in front of the body. */
  method PrintFront(c: CallLine, time: nat, ghost body: string) returns (line: string)
    requires Typed(c) && time < UINT
    ensures line + body == IndexText(c.index, ContextText(c.context, TimeText(time, body)))
  {
    ghost var rest := TimeText(time, body);
    var index := IntText(c.index);
    AppendedThree("", index, ".", " ", ContextText(c.context, rest));
    line := index + "." + " ";
    assert "" + index == index;
    if c.context != 0 {
      var digits := Digits(c.context, 16);
      AppendedThree(line, "@", digits, " ", rest);
      line := line + "@" + digits + " ";
    }
    if time != 0 {
      var clock := PrintClock(time, body);
      Appended(line, clock, body);
      line := line + clock;
    }
  }

  method PrintClock(time: nat, ghost u: string) returns (s: string)
    requires 0 < time < UINT
    ensures s + u == TimeText(time, u)
  {
    var hours := time / 3_600_000;
    var usecs := time % 3_600_000;
    var minutes := usecs / 60_000;
    usecs := usecs % 60_000;
    var seconds := usecs / 1000;
    usecs := usecs % 1000;
    ClockDivided(time);
    var h, m, sec, ms := Padded(hours, 2), Padded(minutes, 2), Padded(seconds, 2), Padded(usecs, 3);
    s := "[" + h + ":" + m + ":" + sec + "." + ms + "]" + " ";
    ClockJoined(h, m, sec, ms, u);
  }

  /** Dividing the remainders gives the fields of the time of day. */
  lemma ClockDivided(time: nat)
    ensures time % 3_600_000 / 60_000 == time / 60_000 % 60
    ensures time % 3_600_000 % 60_000 / 1000 == time / 1000 % 60
    ensures time % 3_600_000 % 60_000 % 1000 == time % 1000
  {
    MinuteRemainder(time);
    SecondRemainder(time % 60_000, time / 60_000);
  }

  lemma MinuteRemainder(time: nat)
    ensures time % 3_600_000 / 60_000 == time / 60_000 % 60 && time % 3_600_000 % 60_000 == time % 60_000
  {
    var mins, left := time / 60_000, time % 60_000;
    var h, m := mins / 60, mins % 60;
    assert mins == 60 * h + m && time == 60_000 * mins + left;
    HourRemainder(h, 60_000 * m + left);
    WithinHour(m, left);
  }

  lemma HourRemainder(h: nat, x: nat)
    requires x < 3_600_000
    ensures (3_600_000 * h + x) % 3_600_000 == x
  {
  }

  lemma WithinHour(m: nat, left: nat)
    requires left < 60_000
    ensures (60_000 * m + left) / 60_000 == m && (60_000 * m + left) % 60_000 == left
  {
  }

  lemma SecondRemainder(left: nat, mins: nat)
    requires left < 60_000
    ensures left / 1000 == (60_000 * mins + left) / 1000 % 60 && left % 1000 == (60_000 * mins + left) % 1000
  {
    var s, ms := left / 1000, left % 1000;
    assert 60_000 * mins + left == 1000 * (60 * mins + s) + ms;
    assert (60_000 * mins + left) / 1000 == 60 * mins + s;
  }

  lemma ClockJoined(h: string, m: string, s: string, ms: string, u: string)
    ensures ("[" + h + ":" + m + ":" + s + "." + ms + "]" + " ") + u
         == "[" + (h + (":" + (m + (":" + (s + ("." + (ms + ("]" + (" " + u)))))))))
  {
    var s4 := "]" + (" " + u);
    var s2 := ":" + (s + ("." + (ms + s4)));
    AppendedThree("[", h, ":", m, s2);
    AppendedThree("[" + h + ":" + m, ":", s, ".", ms + s4);
    AppendedThree("[" + h + ":" + m + ":" + s + ".", ms, "]", " ", u);
  }

  // ---------------------------------------------------------------- the parser's cursor

  /** A cursor stands for the text from it on. */
  ghost function Behind<T>(line: string, r: Step<(T, nat)>): Step<(T, string)> {
    match r
    case Ok((v, at)) => if at <= |line| then Ok((v, line[at..])) else Failed
    case Failed => Step<(T, string)>.Failed
    case Undefined => Step<(T, string)>.Undefined
  }

  lemma FromNext(line: string, at: nat)
    requires at < |line|
    ensures line[at..][0] == line[at] && line[at..][1..] == line[at + 1..]
  {
  }

  /** Moves over blanks. */
  method SkipBlanks(line: string, at: nat) returns (next: nat)
    requires at <= |line|
    ensures at <= next <= |line| && line[next..] == SkipSpaces(line[at..])
  {
    next := at;
    while next < |line| && IsSpace(line[next])
      invariant at <= next <= |line| && SkipSpaces(line[at..]) == SkipSpaces(line[next..])
    {
      FromNext(line, next);
      next := next + 1;
    }
  }

  lemma SpanNext(line: string, at: nat, k: nat, radix: nat)
    requires at <= k < |line| && IsDigit(line[k], radix)
    requires Span(line[at..], radix) == k - at + Span(line[k..], radix)
    ensures Span(line[at..], radix) == k + 1 - at + Span(line[k + 1..], radix)
  {
    FromNext(line, k);
  }

  lemma NumberNext(s: string, c: char, radix: nat)
    requires AllDigits(s, radix) && IsDigit(c, radix)
    ensures AllDigits(s + [c], radix) && NumberOf(s + [c], radix) == NumberOf(s, radix) * radix + DigitValue(c)
  {
    assert (s + [c])[..|s|] == s;
  }

  /** Adds digits up from the left. */
  method ScanDigitRun(line: string, at: nat, radix: nat) returns (ok: bool, n: nat, next: nat)
    requires at <= |line|
    ensures ok <==> ScanDigits(line[at..], radix).Some?
    ensures ok ==> next <= |line| && ScanDigits(line[at..], radix) == Some((n, line[next..]))
  {
    n, next := 0, at;
    while next < |line| && IsDigit(line[next], radix)
      invariant at <= next <= |line| && AllDigits(line[at..next], radix) && n == NumberOf(line[at..next], radix)
      invariant Span(line[at..], radix) == next - at + Span(line[next..], radix)
    {
      RunNext(line, at, next, radix);
      n := n * radix + DigitValue(line[next]);
      next := next + 1;
    }
    ok := next > at;
    Around(line, at, next);
  }

  /** One more digit of a run. */
  lemma RunNext(line: string, at: nat, k: nat, radix: nat)
    requires at <= k < |line| && IsDigit(line[k], radix) && AllDigits(line[at..k], radix)
    requires Span(line[at..], radix) == k - at + Span(line[k..], radix)
    ensures Span(line[at..], radix) == k + 1 - at + Span(line[k + 1..], radix)
    ensures AllDigits(line[at..k + 1], radix)
    ensures NumberOf(line[at..k + 1], radix) == NumberOf(line[at..k], radix) * radix + DigitValue(line[k])
  {
    SpanNext(line, at, k, radix);
    NumberNext(line[at..k], line[k], radix);
    assert line[at..k + 1] == line[at..k] + [line[k]];
  }

  /** Moves over the base prefix of hexadecimal digits. */
  method SkipPrefix(line: string, at: nat, radix: nat) returns (next: nat)
    requires at <= |line|
    ensures next <= |line| && line[next..] == SkipBase(line[at..], radix)
  {
    next := at;
    if radix == 16 && at + 2 <= |line| && line[at] == '0' && (line[at + 1] == 'x' || line[at + 1] == 'X') {
      next := at + 2;
    }
  }

  /** `%d` and `%x`. */
  method ScanInt(line: string, at: nat, radix: nat) returns (ok: bool, n: int, next: nat)
    requires at <= |line|
    ensures ok <==> ScanNumber(line[at..], radix).Some?
    ensures ok ==> next <= |line| && ScanNumber(line[at..], radix) == Some((n, line[next..]))
  {
    var start := SkipBlanks(line, at);
    var negative;
    negative, next := SkipSign(line, start);
    next := SkipPrefix(line, next, radix);
    var value;
    ok, value, next := ScanDigitRun(line, next, radix);
    var sign: int := if negative then -1 else 1;
    n := sign * value;
  }

  /** What is left behind an optional sign. */
  ghost function BehindSign(t: string): string {
    if t != "" && (t[0] == '-' || t[0] == '+') then t[1..] else t
  }

  method SkipSign(line: string, at: nat) returns (negative: bool, next: nat)
    requires at <= |line|
    ensures at <= next <= |line| && line[next..] == BehindSign(line[at..])
    ensures negative <==> line[at..] != "" && line[at..][0] == '-'
  {
    negative, next := false, at;
    if at < |line| && (line[at] == '-' || line[at] == '+') {
      FromNext(line, at);
      negative := line[at] == '-';
      next := at + 1;
    }
  }

  /** Compares a literal character by character. */
  method Literal(line: string, at: nat, text: string) returns (ok: bool, next: nat)
    requires at <= |line|
    ensures ok <==> ScanText(line[at..], text).Some?
    ensures ok ==> next <= |line| && ScanText(line[at..], text) == Some(line[next..])
  {
    var i := 0;
    while i < |text| && at + i < |line| && line[at + i] == text[i]
      invariant i <= |text| && at + i <= |line| && line[at..at + i] == text[..i]
    {
      i := i + 1;
    }
    ok, next := i == |text|, at + i;
    LiteralEnds(line, at, text, i);
  }

  lemma LiteralEnds(line: string, at: nat, text: string, i: nat)
    requires i <= |text| && at + i <= |line| && line[at..at + i] == text[..i]
    requires i < |text| && at + i < |line| ==> line[at + i] != text[i]
    ensures ScanText(line[at..], text) == if i == |text| then Some(line[at + i..]) else None
  {
    var s := line[at..];
    if i == |text| {
      assert s[..i] == line[at..at + i] && text[..i] == text && s[i..] == line[at + i..];
    } else if |text| <= |s| {
      assert s[..|text|][i] == line[at + i] && s[..|text|] != text;
    }
  }

  /** A literal, then a number. */
  method LiteralInt(line: string, at: nat, text: string, radix: nat) returns (ok: bool, n: int, next: nat)
    requires at <= |line|
    ensures ok <==> ScanAfter(line[at..], text, radix).Some?
    ensures ok ==> next <= |line| && ScanAfter(line[at..], text, radix) == Some((n, line[next..]))
  {
    ok, next := Literal(line, at, text);
    n := 0;
    if ok {
      ok, n, next := ScanInt(line, next, radix);
    }
  }

  /** The place of the first such character from the cursor on, or the end of the line. */
  method FindFirst(line: string, at: nat, c: char) returns (k: nat)
    requires at <= |line|
    ensures at <= k <= |line| && First(line[at..], c) == if k < |line| then Some(k - at) else None
    ensures k < |line| ==> line[k] == c
  {
    k := at;
    while k < |line| && line[k] != c
      invariant at <= k <= |line|
      invariant First(line[at..], c) == match First(line[k..], c) case None => None case Some(i) => Some(i + (k - at))
    {
      FromNext(line, k);
      FirstStep(line[k..], c);
      k := k + 1;
    }
    if k < |line| { FromNext(line, k); }
  }

  lemma FirstStep(s: string, c: char)
    requires s != "" && s[0] != c
    ensures First(s, c) == match First(s[1..], c) case None => None case Some(i) => Some(i + 1)
  {
  }

  /** The place of the last such character from the cursor on, or the end of the line. */
  method FindLast(line: string, at: nat, c: char) returns (k: nat)
    requires at <= |line|
    ensures at <= k <= |line| && Last(line[at..], c) == if k < |line| then Some(k - at) else None
    ensures k < |line| ==> line[k] == c
  {
    k := |line|;
    assert line[at..k] == line[at..];
    while k > at && line[k - 1] != c
      invariant at <= k <= |line| && Last(line[at..], c) == Last(line[at..k], c)
    {
      assert line[at..k][..k - 1 - at] == line[at..k - 1] && line[at..k][k - 1 - at] == line[k - 1];
      k := k - 1;
    }
    if k > at {
      assert line[at..k][k - 1 - at] == line[k - 1];
      k := k - 1;
    } else {
      k := |line|;
    }
  }

  /** Moves behind the next space. */
  method PastSpace(line: string, at: nat) returns (ok: bool, next: nat)
    requires at <= |line|
    ensures ok <==> AfterSpace(line[at..]).Some?
    ensures ok ==> next <= |line| && AfterSpace(line[at..]) == Some(line[next..])
  {
    next := at;
    while next < |line| && line[next] != ' '
      invariant at <= next <= |line| && AfterSpace(line[at..]) == AfterSpace(line[next..])
    {
      FromNext(line, next);
      next := next + 1;
    }
    ok := next < |line|;
    if ok {
      FromNext(line, next);
      next := next + 1;
    }
  }

  method ParseIndex(line: string) returns (r: Step<(int, nat)>)
    ensures Behind(line, r) == ReadIndex(line) && (r.Ok? ==> r.value.1 <= |line|)
  {
    assert line[0..] == line;
    var ok, n, next := ScanInt(line, 0, 10);
    if !ok || next == |line| || line[next] != '.' {
      return Failed;
    }
    ok, next := PastSpace(line, 0);
    if !ok {
      return Failed;
    }
    r := if IsInt(n) then Ok((n, next)) else Undefined;
  }

  /** The optional context mask. */
  method ParseContext(line: string, at: nat) returns (r: Step<(nat, nat)>)
    requires at <= |line|
    ensures Behind(line, r) == ReadContext(line[at..]) && (r.Ok? ==> r.value.1 <= |line|)
  {
    var ok, n, next := LiteralInt(line, at, "@", 16);
    if !ok {
      return Ok((0, at));
    }
    ok, next := PastSpace(line, at);
    if !ok {
      return Failed;
    }
    r := if -UINT < n < UINT then Ok((Unsigned(n, UINT), next)) else Undefined;
  }

  /** The four numbers of a time. */
  method ParseClock(line: string, at: nat) returns (ok: bool, h: int, m: int, s: int, ms: int)
    requires at <= |line|
    ensures ScanTime(line[at..]) == if ok then Some((h, m, s, ms)) else None
  {
    m, s, ms := 0, 0, 0;
    var next;
    ok, h, next := LiteralInt(line, at, "[", 10);
    if ok {
      ok, m, next := LiteralInt(line, next, ":", 10);
    }
    if ok {
      ok, s, next := LiteralInt(line, next, ":", 10);
    }
    if ok {
      ok, ms, next := LiteralInt(line, next, ".", 10);
    }
  }

  /** The optional time. */
  method ParseTime(line: string, at: nat) returns (r: Step<(nat, nat)>)
    requires at <= |line|
    ensures Behind(line, r) == ReadTime(line[at..]) && (r.Ok? ==> r.value.1 <= |line|)
  {
    var ok, h, m, s, ms := ParseClock(line, at);
    if !ok {
      return Ok((0, at));
    }
    var next;
    ok, next := PastSpace(line, at);
    if !ok {
      return Failed;
    }
    var sum := Milliseconds(h, m, s, ms);
    r := if sum.Some? then Ok((Unsigned(sum.value, UINT), next)) else Undefined;
  }

  /** The name, and the type when the last parenthesis follows a bracket; the cursor stops at the arguments. */
  method ParseBody(line: string, at: nat) returns (r: Step<((string, ResField), nat)>)
    requires at <= |line|
    ensures BodyAt(line, r) == ReadBody(line[at..]) && (r.Ok? ==> r.value.1 <= |line|)
  {
    var open := FindLast(line, at, '(');
    if open == |line| {
      return Failed;
    }
    if open > at && line[open - 1] == '>' {
      r := ParseTyped(line, at, open);
    } else {
      Around(line, at, open);
      UntypedShape(line[at..], open - at);
      r := if open - at < NAME_SIZE then Ok(((line[at..open], NoField), open)) else Undefined;
    }
  }

  lemma Around(line: string, at: nat, k: nat)
    requires at <= k <= |line|
    ensures line[at..][..k - at] == line[at..k] && line[at..][k - at..] == line[k..]
    ensures k < |line| ==> line[at..][k - at + 1..] == line[k + 1..] && line[at..][k - at] == line[k]
    ensures k > at ==> line[at..][k - at - 1] == line[k - 1]
  {
  }

  /** The name before the last bracket, if there is one. */
  method ParseTyped(line: string, at: nat, ghost open: nat) returns (r: Step<((string, ResField), nat)>)
    requires at < open < |line| && Last(line[at..], '(') == Some(open - at) && line[open - 1] == '>'
    ensures BodyAt(line, r) == ReadBody(line[at..]) && (r.Ok? ==> r.value.1 <= |line|)
  {
    var bracket := FindLast(line, at, '<');
    if bracket == |line| {
      Around(line, at, open);
      NoBracketShape(line[at..], open - at);
      return Undefined;
    }
    TypeBehind(line, at, open, bracket);
    if bracket - at >= NAME_SIZE {
      return Undefined;
    }
    r := ParseType(line, bracket + 1, line[at..bracket]);
  }

  lemma TypeBehind(line: string, at: nat, open: nat, bracket: nat)
    requires at < open < |line| && Last(line[at..], '(') == Some(open - at) && line[open - 1] == '>'
    requires at <= bracket < |line| && Last(line[at..], '<') == Some(bracket - at)
    ensures ReadBody(line[at..])
         == if bracket - at < NAME_SIZE then ReadType(line[at..bracket], line[bracket + 1..]) else Undefined
  {
    var s, j := line[at..], bracket - at;
    Around(line, at, open);
    TypedShape(s, open - at, j);
    Around(line, at, bracket);
    TypeSame(s[..j], s[j + 1..], line[at..bracket], line[bracket + 1..]);
  }

  lemma TypeSame(name: string, u: string, name': string, u': string)
    requires name == name' && u == u'
    ensures ReadType(name, u) == ReadType(name', u')
  {
  }

  lemma NoBracketShape(s: string, k: nat)
    requires Last(s, '(') == Some(k) && k > 0 && s[k - 1] == '>' && Last(s, '<').None?
    ensures ReadBody(s) == Undefined
  {
  }

  ghost function BodyAt(line: string, r: Step<((string, ResField), nat)>): Step<(string, ResField, string)> {
    match r
    case Ok(((name, res), at)) => if at <= |line| then Ok((name, res, line[at..])) else Failed
    case Failed => Step<(string, ResField, string)>.Failed
    case Undefined => Step<(string, ResField, string)>.Undefined
  }

  /** The type runs to the closing bracket. */
  method ParseType(line: string, at: nat, name: string) returns (r: Step<((string, ResField), nat)>)
    requires at <= |line|
    ensures BodyAt(line, r) == ReadType(name, line[at..]) && (r.Ok? ==> r.value.1 <= |line|)
  {
    var close := FindFirst(line, at, '>');
    if close == at || close - at >= NAME_SIZE {
      TypeEnds(line[at..], close - at, name);
      return if close == at then Failed else Undefined;
    }
    var open := FindFirst(line, at, '(');
    TypeOpens(line, at, close, open, name);
    r := if open == |line| then Failed else Ok(((name, ByName(line[at..close])), open));
  }

  lemma TypeOpens(line: string, at: nat, close: nat, open: nat, name: string)
    requires at < close <= |line| && First(line[at..], '>') == if close < |line| then Some(close - at) else None
    requires at <= open <= |line| && First(line[at..], '(') == if open < |line| then Some(open - at) else None
    requires close - at < NAME_SIZE
    ensures ReadType(name, line[at..])
         == if open == |line| then Failed else Ok((name, ByName(line[at..close]), line[open..]))
  {
    TypeEnds(line[at..], close - at, name);
    Around(line, at, close);
    Around(line, at, open);
  }

  lemma TypeEnds(s: string, k: nat, name: string)
    requires k <= |s| && First(s, '>') == if k < |s| then Some(k) else None
    ensures ReadType(name, s)
         == if k == 0 then Failed else if k >= NAME_SIZE then Undefined
            else match First(s, '(') case None => Failed case Some(i) => Ok((name, ByName(s[..k]), s[i..]))
  {
    UpToEnds(s, '>', k);
  }

  lemma UpToEnds(s: string, c: char, k: nat)
    requires k <= |s| && First(s, c) == if k < |s| then Some(k) else None
    ensures UpTo(s, c) == s[..k]
  {
    assert s[..|s|] == s;
  }

  /** The arguments of an allocation. */
  method ParseAlloc(line: string, at: nat) returns (ok: bool, size: int, id: int)
    requires at <= |line|
    ensures ScanAlloc(line[at..]) == if ok then Some((size, id)) else None
  {
    id := 0;
    var next;
    ok, size, next := LiteralInt(line, at, "(", 10);
    if ok {
      ok, next := Literal(line, next, ")");
    }
    if ok {
      next := SkipBlanks(line, next);
      ok, next := Literal(line, next, "=");
    }
    if ok {
      next := SkipBlanks(line, next);
      ok, id, next := LiteralInt(line, next, "0x", 16);
    }
  }

  method ParseArgs(line: string, at: nat) returns (r: Step<(CallKind, int, nat)>)
    requires at <= |line|
    ensures r == ReadArgs(line[at..])
  {
    var ok, size, id := ParseAlloc(line, at);
    if ok {
      return if IsInt(size) && -ULONG < id < ULONG then Ok((Alloc, size, Unsigned(id, ULONG))) else Undefined;
    }
    var next;
    ok, id, next := LiteralInt(line, at, "(0x", 16);
    if !ok {
      return Failed;
    }
    r := if -ULONG < id < ULONG then Ok((Free, 0, Unsigned(id, ULONG))) else Undefined;
  }

  /** Moves a cursor over the line field by field. */
  method ParseCall(line: string) returns (r: Step<CallLine>)
    ensures r == ReadCall(line)
  {
    var index :- ParseIndex(line);
    var context :- ParseContext(line, index.1);
    var time :- ParseTime(line, context.1);
    var body :- ParseBody(line, time.1);
    var args :- ParseArgs(line, body.1);
    r := Ok(CallLine(index.0, args.0, context.0, time.0, body.0.0, body.0.1, args.2, args.1));
  }

  function Pow(b: nat, k: nat): nat {
    if k == 0 then 1 else b * Pow(b, k - 1)
  }

  lemma {:induction false} DigitsShort(n: nat, radix: nat, k: nat)
    requires (radix == 10 || radix == 16) && k >= 1 && n < Pow(radix, k)
    ensures |Digits(n, radix)| <= k
  {
    if n >= radix {
      assert k > 1 by { assert Pow(radix, 1) == radix * Pow(radix, 0); }
      DividedBelow(n, radix, Pow(radix, k - 1));
      DigitsShort(n / radix, radix, k - 1);
    }
  }

  lemma DividedBelow(n: nat, radix: nat, p: nat)
    requires radix > 0 && n < radix * p
    ensures n / radix < p
  {
    var q := n / radix;
    assert radix * q <= n;
    assert q >= p ==> radix * q >= radix * p;
  }

  lemma FieldsShort(n: nat)
    ensures n < UINT ==> |Digits(n, 10)| <= 10 && |Digits(n, 16)| <= 8
    ensures n < ULONG ==> |Digits(n, 16)| <= 16
  {
    assert Pow(10, 10) == 10_000_000_000 && Pow(16, 8) == UINT && Pow(16, 16) == ULONG;
    if n < UINT {
      DigitsShort(n, 10, 10);
      DigitsShort(n, 16, 8);
    }
    if n < ULONG { DigitsShort(n, 16, 16); }
  }

  lemma PaddedShort(n: nat, width: nat)
    requires n < UINT && width <= 10
    ensures |Padded(n, width)| <= 10
  {
    FieldsShort(n);
  }

  lemma TimeShort(time: nat, u: string)
    requires time < UINT
    ensures |TimeText(time, u)| <= |u| + 46
  {
    PaddedShort(time / 3_600_000, 2);
    PaddedShort(time / 60_000 % 60, 2);
    PaddedShort(time / 1000 % 60, 2);
    PaddedShort(time % 1000, 3);
  }

  lemma IntShort(n: int)
    requires IsInt(n)
    ensures |IntText(n)| <= 11
  {
    FieldsShort(if n < 0 then -n else n);
  }

  lemma BodyShort(c: CallLine)
    requires Typed(c) && Printable(c)
    ensures |Body(c)| <= 2 * NAME_SIZE + 40
  {
    FieldsShort(c.id);
    IntShort(c.size);
  }

  /** Whatever can be read back fits the line. */
  lemma PrintableFits(c: CallLine, now: nat)
    requires Typed(c) && Printable(c)
    ensures |CallText(c, now)| <= LINE_SIZE
  {
    var body, time := Body(c), PrintedTime(c, now);
    BodyShort(c);
    TimeShort(time, body);
    FieldsShort(c.context);
    IntShort(c.index);
  }
}
