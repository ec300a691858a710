/** The tokens of a date string: numbers, symbols, words, blanks and the end. */
module DateTokens {
  import opened Common

  const INT_MAX: int := 2147483647
  const DEL: char := '\U{7F}'
  // (INT_MAX - 9) / 10: from here on no further digit is taken into a number.
  const MAX_DECIMAL: int := 214748363
  const MAX_NUMBER: int := 2147483639

  datatype DateUnit =
    | Number(value: nat, len: nat)
    | Symbol(symbol: char)
    | Space
    | Unknown
    | StringEnd
    | TimeZoneWord(isName: bool)
    | TimeFlag
    | Month(month: int)
    | InvalidWord
  {
    predicate IsSymbol(c: char) { this == Symbol(c) }
    predicate IsSign() { IsSymbol('-') || IsSymbol('+') }
    predicate IsNumberOf(n: nat) { Number? && len == n }
    predicate IsWordZ() { this == TimeZoneWord(false) }
    predicate IsValidFinallyTime() { StringEnd? || IsSign() || IsWordZ() || Space? }
  }

  predicate IsDigit(c: char) { '0' <= c <= '9' }

  // The range as the scanner has it: it takes in the six characters between 'Z' and 'a'.
  predicate IsAlpha(c: char) { 'A' <= c <= 'z' }

  predicate IsSpaceOrTab(c: char) { c == ' ' || c == '\t' }

  function GetLower(c: char): (r: char) { if 'A' <= c <= 'Z' then (c as int + 32) as char else c }

  /** The character under the reader; past the end it reads DEL. */
  function First(s: string): (c: char) { if s == "" then DEL else s[0] }

  function DigitOf(c: char): (d: int)
    requires IsDigit(c)
    ensures 0 <= d <= 9
  {
    c as int - '0' as int
  }

  predicate AllDigits(s: string) { forall i :: 0 <= i < |s| ==> IsDigit(s[i]) }

  /** The value of a digit string. */
  function Decimal(s: string): (n: nat)
    requires AllDigits(s)
  {
    if s == "" then 0 else Decimal(s[..|s| - 1]) * 10 + DigitOf(s[|s| - 1])
  }

  /** How many leading digits a string has. */
  function DigitSpan(s: string): (n: nat)
    ensures n <= |s| && (forall i :: 0 <= i < n ==> IsDigit(s[i])) && !IsDigit(First(s[n..]))
  {
    if s == "" || !IsDigit(s[0]) then 0 else
      var n := 1 + DigitSpan(s[1..]);
      assert s[n..] == s[1..][n - 1..];
      assert forall i :: 1 <= i < n ==> s[i] == s[1..][i - 1];
      n
  }

  function AlphaSpan(s: string): (n: nat)
    ensures n <= |s| && (forall i :: 0 <= i < n ==> IsAlpha(s[i])) && !IsAlpha(First(s[n..]))
  {
    if s == "" || !IsAlpha(s[0]) then 0 else
      var n := 1 + AlphaSpan(s[1..]);
      assert s[n..] == s[1..][n - 1..];
      assert forall i :: 1 <= i < n ==> s[i] == s[1..][i - 1];
      n
  }

  /** The digits that count: up to and including the first that takes the value above MAX_DECIMAL. */
  ghost function CountFrom(ds: string, k: nat): (n: nat)
    requires AllDigits(ds) && k <= |ds|
    ensures k <= n <= |ds|
    decreases |ds| - k
  {
    if k == |ds| || Decimal(ds[..k]) > MAX_DECIMAL then k else CountFrom(ds, k + 1)
  }

  ghost function NumberToken(ds: string): (u: DateUnit)
    requires AllDigits(ds)
  {
    var n := CountFrom(ds, 0); Number(Decimal(ds[..n]), n)
  }

  const MONTHS: seq<string> := ["jan", "feb", "mar", "apr", "may", "jun", "jul", "aug", "sep", "oct", "nov", "dec"]

  ghost function Lower(s: string): (r: string)
    ensures |r| == |s|
  {
    seq(|s|, i requires 0 <= i < |s| => GetLower(s[i]))
  }

  /** The first n characters, but no more than size of them. */
  ghost function Upto(s: string, n: nat, size: nat): (r: string)
    requires n <= |s|
  {
    if n < size then s[..n] else if size <= |s| then s[..size] else s
  }

  lemma UptoStart(s: string, size: nat)
    ensures Lower(Upto(s, 0, size)) == ""
  {
  }

  lemma UptoNext(s: string, n: nat, size: nat)
    requires n < |s|
    ensures Lower(Upto(s, n + 1, size)) == Lower(Upto(s, n, size)) + (if n < size then [GetLower(s[n])] else "")
  {
  }

  /** The token a word's first three letters stand for. */
  ghost function WordToken(w: string): (u: DateUnit) {
    if w == "t" then TimeFlag
    else if w == "z" then TimeZoneWord(false)
    else if w == "utc" || w == "gmt" then TimeZoneWord(true)
    else if w in MONTHS then Month(IndexIn(MONTHS, w) + 1)
    else InvalidWord
  }

  ghost function IndexIn(names: seq<string>, w: string): (i: nat)
    requires w in names
    ensures i < |names| && names[i] == w
  {
    if names[0] == w then 0 else 1 + IndexIn(names[1..], w)
  }

  /** The first token of a string, and how many characters it takes. */
  ghost function HeadToken(s: string): (u: DateUnit) {
    var c := First(s);
    if IsDigit(c) then NumberToken(s[..DigitSpan(s)])
    else if c == DEL then StringEnd
    else if c == ':' || c == '+' || c == '-' || c == '.' then Symbol(c)
    else if IsAlpha(c) then var n := AlphaSpan(s); WordToken(Lower(Upto(s, n, 3)))
    else if IsSpaceOrTab(c) then Space
    else Unknown
  }

  ghost function HeadLength(s: string): (n: nat)
    ensures n <= |s| && (n == 0 <==> HeadToken(s).StringEnd?)
  {
    var c := First(s);
    if IsDigit(c) then DigitSpan(s) else if c == DEL then 0 else if IsAlpha(c) then AlphaSpan(s) else 1
  }

  /** All tokens of a string, up to the first end: a DEL character ends it early. */
  ghost function Tokens(s: string): (ts: seq<DateUnit>)
    ensures TokenList(ts)
    decreases |s|
  {
    var u := HeadToken(s);
    if u.StringEnd? then [u] else [u] + Tokens(s[HeadLength(s)..])
  }

  ghost predicate TokenList(ts: seq<DateUnit>) {
    && |ts| > 0 && ts[|ts| - 1].StringEnd?
    && forall i :: 0 <= i < |ts| - 1 ==> !ts[i].StringEnd?
  }

  /** Moving past a token; the end stays. */
  ghost function Rest(ts: seq<DateUnit>): (r: seq<DateUnit>)
    requires |ts| > 0
    ensures 0 < |r| <= |ts| && (TokenList(ts) ==> TokenList(r))
    ensures |ts| > 1 ==> |r| < |ts|
  {
    if |ts| == 1 then ts else ts[1..]
  }

  /** The current token is the end exactly when no other is left. */
  lemma EndIsLast(ts: seq<DateUnit>)
    requires TokenList(ts)
    ensures ts[0].StringEnd? <==> |ts| == 1
  {
  }

  // ----- numbers -----

  lemma {:induction false} DecimalBound(s: string)
    requires AllDigits(s)
    ensures Decimal(s) < Pow10(|s|)
  {
    if s != "" { DecimalBound(s[..|s| - 1]); }
  }

  lemma {:induction false} PrefixSmaller(s: string, k: nat)
    requires AllDigits(s) && k <= |s|
    ensures Decimal(s[..k]) <= Decimal(s)
    decreases |s|
  {
    if k < |s| {
      var t := s[..|s| - 1];
      PrefixSmaller(t, k);
      assert t[..k] == s[..k];
    } else {
      assert s[..k] == s;
    }
  }

  /** The counted digits are the shortest prefix whose value exceeds MAX_DECIMAL, or all of them. */
  lemma {:induction false} CountedDigits(ds: string, k: nat)
    requires AllDigits(ds) && k <= |ds| && forall j :: 0 <= j < k ==> Decimal(ds[..j]) <= MAX_DECIMAL
    ensures forall j :: 0 <= j < CountFrom(ds, k) ==> Decimal(ds[..j]) <= MAX_DECIMAL
    ensures CountFrom(ds, k) < |ds| ==> Decimal(ds[..CountFrom(ds, k)]) > MAX_DECIMAL
    decreases |ds| - k
  {
    if k < |ds| && Decimal(ds[..k]) <= MAX_DECIMAL { CountedDigits(ds, k + 1); }
  }

  lemma {:induction false} CountedIs(ds: string, n: nat)
    requires AllDigits(ds) && n <= |ds| && forall j :: 0 <= j < n ==> Decimal(ds[..j]) <= MAX_DECIMAL
    requires n == |ds| || Decimal(ds[..n]) > MAX_DECIMAL
    ensures CountFrom(ds, 0) == n
  {
    CountedDigits(ds, 0);
  }

  lemma {:induction false} NextDigit(ds: string, k: nat)
    requires AllDigits(ds) && k < |ds|
    ensures Decimal(ds[..k + 1]) == Decimal(ds[..k]) * 10 + DigitOf(ds[k])
  {
    assert ds[..k + 1][..k] == ds[..k];
  }

  /** Every number fits an int with room to spare, so it never equals the INT_MAX that means "unset". */
  lemma {:induction false} NumberBounds(ds: string)
    requires AllDigits(ds) && ds != ""
    ensures var u := NumberToken(ds); 1 <= u.len <= |ds| && 0 <= u.value <= MAX_NUMBER < INT_MAX && u.value < Pow10(u.len)
  {
    CountedDigits(ds, 0);
    var n := CountFrom(ds, 0);
    assert ds[..0] == "";
    assert n > 0;
    NextDigit(ds, n - 1);
    DecimalBound(ds[..n]);
  }

  /** A value up to MAX_DECIMAL is read whole. */
  lemma {:induction false} SmallNumber(ds: string)
    requires AllDigits(ds) && Decimal(ds) <= MAX_DECIMAL
    ensures NumberToken(ds) == Number(Decimal(ds), |ds|)
  {
    forall j | 0 <= j < |ds| ensures Decimal(ds[..j]) <= MAX_DECIMAL { PrefixSmaller(ds, j); }
    CountedIs(ds, |ds|);
    assert ds[..|ds|] == ds;
  }

  // ----- the reader -----

  /** len digits have been read into num, none of the shorter prefixes being above MAX_DECIMAL. */
  ghost predicate Counting(ds: string, len: nat, num: int) {
    && AllDigits(ds) && len <= |ds| && num == Decimal(ds[..len])
    && forall j :: 0 <= j < len ==> Decimal(ds[..j]) <= MAX_DECIMAL
  }

  lemma {:induction false} CountDigit(ds: string, len: nat, num: int, c: char)
    requires Counting(ds, len, num) && num <= MAX_DECIMAL && len < |ds| && ds[len] == c
    ensures IsDigit(c) && Counting(ds, len + 1, DigitOf(c) + num * 10) && 0 <= DigitOf(c) + num * 10 <= MAX_NUMBER
  {
    NextDigit(ds, len);
    forall j | 0 <= j < len + 1 ensures Decimal(ds[..j]) <= MAX_DECIMAL {}
  }

  lemma {:induction false} CountStart(ds: string)
    requires AllDigits(ds)
    ensures Counting(ds, 0, 0)
  {
    assert ds[..0] == "";
  }

  lemma {:induction false} Counted(ds: string, len: nat, num: int)
    requires Counting(ds, len, num) && (len == |ds| || num > MAX_DECIMAL)
    ensures NumberToken(ds) == Number(num, len)
  {
    CountedIs(ds, len);
  }

  class StringReader {
    const data: string
    var index: nat
    var value: char

    /** The character read last is the one before index, or DEL when that is past the end. */
    ghost predicate Valid() reads this { 1 <= index && value == First(Remaining()) }

    /** What is left to read, the current character first. */
    ghost function Remaining(): (s: string)
      reads this
    {
      if 1 <= index <= |data| then data[index - 1..] else ""
    }

    constructor (str: string)
      ensures Valid() && Remaining() == str
    {
      data, index, value := str, 1, if 0 < |str| then str[0] else DEL;
    }

    method NextChar()
      requires Valid()
      modifies this
      ensures Valid() && Remaining() == Tail(old(Remaining()))
    {
      value := if index < |data| then data[index] else DEL;
      index := index + 1;
    }

    /** Reads a run of digits; only the counted ones make up the number. */
    method ReadNumber() returns (num: nat, len: nat)
      requires Valid()
      modifies this
      ensures Valid() && Remaining() == old(Remaining())[DigitSpan(old(Remaining()))..]
      ensures Number(num, len) == NumberToken(old(Remaining())[..DigitSpan(old(Remaining()))])
    {
      hide Counting, NumberToken, Remaining, DigitSpan, AllDigits;
      ghost var s := Remaining();
      ghost var ds := s[..DigitSpan(s)];
      len, num := 0, 0;
      CountStart(ds);
      Whole(s);
      while IsDigit(value)
        invariant Valid() && len <= DigitSpan(s) && Remaining() == s[len..]
        invariant Counting(ds, len, num) && num <= MAX_DECIMAL
        decreases |s| - len
      {
        InRun(s, len);
        CountDigit(ds, len, num, value);
        num := DigitOf(value) + num * 10;
        len := len + 1;
        if num > MAX_DECIMAL { break; }
        NextChar();
      }
      if num <= MAX_DECIMAL { EndOfRun(s, len); }
      Counted(ds, len, num);
      SkipDigits(s, if num > MAX_DECIMAL then len - 1 else len);
    }

    /** Reads the digits that follow. */
    method SkipDigits(ghost s: string, ghost from: nat)
      requires Valid() && from <= DigitSpan(s) && Remaining() == s[from..]
      modifies this
      ensures Valid() && Remaining() == s[DigitSpan(s)..]
    {
      hide DigitSpan, Remaining;
      ghost var pos := from;
      while IsDigit(value)
        invariant Valid() && pos <= DigitSpan(s) && Remaining() == s[pos..]
        decreases |s| - pos
      {
        InRun(s, pos);
        NextChar();
        pos := pos + 1;
      }
      EndOfRun(s, pos);
    }

    /** Reads a run of letters, keeping the first size of them in lower case. */
    method ReadAlphabet(size: nat) returns (word: string, length: nat)
      requires Valid()
      modifies this
      ensures length == AlphaSpan(old(Remaining())) && Valid() && Remaining() == old(Remaining())[length..]
      ensures word == Lower(Upto(old(Remaining()), length, size))
    {
      hide AlphaSpan, Remaining, Lower, Upto;
      ghost var s := Remaining();
      word, length := "", 0;
      Whole(s);
      UptoStart(s, size);
      while IsAlpha(value)
        invariant Valid() && length <= AlphaSpan(s) <= |s| && Remaining() == s[length..]
        invariant word == Lower(Upto(s, length, size))
        decreases |s| - length
      {
        InWord(s, length);
        UptoNext(s, length, size);
        if length < size {
          word := word + [GetLower(value)];
        }
        NextChar();
        length := length + 1;
      }
      EndOfWord(s, length);
    }
  }

  ghost function Tail(s: string): (r: string) { if s == "" then "" else s[1..] }

  lemma Whole(s: string)
    ensures s[0..] == s && DigitSpan(s) <= |s| && AlphaSpan(s) <= |s|
  {
  }

  lemma InWord(s: string, pos: nat)
    requires pos <= AlphaSpan(s) && IsAlpha(First(s[pos..]))
    ensures pos < AlphaSpan(s) <= |s| && s[pos] == First(s[pos..]) && Tail(s[pos..]) == s[pos + 1..]
  {
  }

  lemma EndOfWord(s: string, pos: nat)
    requires pos <= AlphaSpan(s) && !IsAlpha(First(s[pos..]))
    ensures pos == AlphaSpan(s)
  {
  }

  lemma InRun(s: string, pos: nat)
    requires pos <= DigitSpan(s) && IsDigit(First(s[pos..]))
    ensures pos < DigitSpan(s) && Tail(s[pos..]) == s[pos + 1..] && s[..DigitSpan(s)][pos] == First(s[pos..])
  {
  }

  lemma {:induction false} EndOfRun(s: string, pos: nat)
    requires pos <= DigitSpan(s) && !IsDigit(First(s[pos..]))
    ensures pos == DigitSpan(s)
  {
    assert forall j :: 0 <= j < DigitSpan(s) ==> s[..DigitSpan(s)][j] == s[j];
  }

  // ----- tokens -----

  method MatchKeyWord(str: string) returns (u: DateUnit)
    ensures u == WordToken(str)
  {
    if str == "t" { return TimeFlag; }
    if str == "z" { return TimeZoneWord(false); }
    if str == "utc" || str == "gmt" { return TimeZoneWord(true); }
    var i := Find(MONTHS, str);
    return if i < |MONTHS| then Month(i + 1) else InvalidWord;
  }

  method Find(names: seq<string>, w: string) returns (i: nat)
    ensures i <= |names| && (i < |names| <==> w in names) && (i < |names| ==> i == IndexIn(names, w))
  {
    i := 0;
    while i < |names|
      invariant i <= |names| && forall j :: 0 <= j < i ==> names[j] != w
    {
      if w == names[i] {
        FirstIndexIn(names, w, i);
        return;
      }
      i := i + 1;
    }
  }

  lemma {:induction false} FirstIndexIn(names: seq<string>, w: string, i: nat)
    requires i < |names| && names[i] == w && forall j :: 0 <= j < i ==> names[j] != w
    ensures w in names && IndexIn(names, w) == i
    decreases |names|
  {
    if i > 0 { FirstIndexIn(names[1..], w, i - 1); }
  }

  class DateProxy {
    const str: StringReader
    var date: DateUnit

    ghost predicate Valid() reads this, str {
      str.Valid() && (date.StringEnd? ==> First(str.Remaining()) == DEL)
    }

    /** The tokens still to come, the current one first. */
    ghost function View(): (ts: seq<DateUnit>)
      reads this, str
      ensures TokenList(ts)
    {
      if date.StringEnd? then [date] else [date] + Tokens(str.Remaining())
    }

    constructor (str: StringReader)
      requires str.Valid()
      modifies str
      ensures Valid() && View() == Tokens(old(str.Remaining())) && this.str == str
    {
      this.str := str;
      date := StringEnd;
      new;
      date := Read();
    }

    /** Moves to the next token. */
    method NextDate() returns (cur: DateUnit)
      requires Valid()
      modifies this, str
      ensures Valid() && cur == old(View())[0] && View() == Rest(old(View()))
    {
      cur := date;
      var u := Read();
      date := u;
    }

    /** Scans one token. */
    method Read() returns (u: DateUnit)
      requires str.Valid()
      modifies str
      ensures str.Valid() && u == HeadToken(old(str.Remaining()))
      ensures str.Remaining() == old(str.Remaining())[HeadLength(old(str.Remaining()))..]
    {
      hide NumberToken, WordToken, DigitSpan, AlphaSpan, Lower, Upto;
      ghost var s := str.Remaining();
      if IsDigit(str.value) {
        var num, len := str.ReadNumber();
        return Number(num, len);
      }
      if str.value == DEL { return StringEnd; }
      if str.value == ':' || str.value == '+' || str.value == '-' || str.value == '.' {
        u := Symbol(str.value);
        str.NextChar();
        return;
      }
      if IsAlpha(str.value) {
        var word, len := str.ReadAlphabet(3);
        u := MatchKeyWord(word);
        return;
      }
      u := if IsSpaceOrTab(str.value) then Space else Unknown;
      str.NextChar();
    }
  }
}
