/**
 * The JavaScript string operations the species form relies on:
 * `trim`, `split(',')`, the `.map(trim).filter(Boolean)` list idiom and
 * `Number(x) || 0`.
 */
module Text {

  /** The WhiteSpace and LineTerminator code points of ECMAScript, which `trim` removes. */
  predicate IsSpace(c: char) {
    || c == '\t' || c == '\n' || c == '\U{000B}' || c == '\U{000C}' || c == '\r'
    || c == ' ' || c == '\U{00A0}' || c == '\U{1680}' || ('\U{2000}' <= c <= '\U{200A}')
    || c == '\U{2028}' || c == '\U{2029}' || c == '\U{202F}' || c == '\U{205F}'
    || c == '\U{3000}' || c == '\U{FEFF}'
  }

  /** `s.trimStart()`: the suffix left after dropping every leading space. */
  function TrimStart(s: string): (r: string)
    ensures |r| <= |s| && r == s[|s| - |r|..]
    ensures forall k :: 0 <= k < |s| - |r| ==> IsSpace(s[k])
    ensures r == [] || !IsSpace(r[0])
  {
    if |s| > 0 && IsSpace(s[0]) then TrimStart(s[1..]) else s
  }

  /** `s.trimEnd()`: the prefix left after dropping every trailing space. */
  function TrimEnd(s: string): (r: string)
    ensures |r| <= |s| && r == s[..|r|]
    ensures forall k :: |r| <= k < |s| ==> IsSpace(s[k])
    ensures r == [] || !IsSpace(r[|r| - 1])
  {
    if |s| > 0 && IsSpace(s[|s| - 1]) then TrimEnd(s[..|s| - 1]) else s
  }

  /** `s.trim()`. */
  function Trim(s: string): (r: string)
    ensures |r| <= |s|
    ensures forall c :: c in r ==> c in s
    ensures r == [] || (!IsSpace(r[0]) && !IsSpace(r[|r| - 1]))
    ensures r == [] <==> forall k :: 0 <= k < |s| ==> IsSpace(s[k])
  {
    var t := TrimStart(s);
    var r := TrimEnd(t);
    assert forall c :: c in r ==> c in t;
    r
  }

  /** A string the list parser may keep: non-empty, already trimmed and without a comma. */
  predicate IsCleanItem(x: string) {
    x != "" && Trim(x) == x && ',' !in x
  }

  lemma TrimIdempotent(s: string)
    ensures Trim(Trim(s)) == Trim(s)
  {
    var r := Trim(s);
    assert TrimStart(r) == r;
    assert TrimEnd(r) == r;
  }

  /** `s.split(sep)` for a one-character separator: the pieces between separators, in order. */
  function Split(s: string, sep: char): (r: seq<string>)
    ensures |r| >= 1
    ensures forall k :: 0 <= k < |r| ==> sep !in r[k]
  {
    if |s| == 0 then [""]
    else
      var rest := Split(s[1..], sep);
      if s[0] == sep then [""] + rest else [[s[0]] + rest[0]] + rest[1..]
  }

  /** `pieces.join(sep)`, the inverse of Split. */
  function Join(pieces: seq<string>, sep: char): string
    requires |pieces| >= 1
  {
    if |pieces| == 1 then pieces[0] else pieces[0] + [sep] + Join(pieces[1..], sep)
  }

  /** Joining the pieces of a split gives back the original text. */
  lemma {:induction false} JoinSplit(s: string, sep: char)
    ensures Join(Split(s, sep), sep) == s
  {
    if |s| > 0 {
      var rest := Split(s[1..], sep);
      JoinSplit(s[1..], sep);
      if s[0] == sep {
        assert Split(s, sep)[1..] == rest;
      } else {
        var r := Split(s, sep);
        assert r[0] == [s[0]] + rest[0] && r[1..] == rest[1..];
        if |rest| > 1 {
          assert Join(rest, sep) == rest[0] + [sep] + Join(rest[1..], sep);
        }
      }
      assert s == [s[0]] + s[1..];
    }
  }

  lemma {:induction false} SplitPrefix(x: string, t: string, sep: char)
    requires sep !in x
    ensures Split(x + t, sep) == [x + Split(t, sep)[0]] + Split(t, sep)[1..]
  {
    if |x| > 0 {
      var st := Split(t, sep);
      SplitPrefix(x[1..], t, sep);
      assert (x + t)[0] == x[0] && x[0] != sep;
      assert (x + t)[1..] == x[1..] + t;
      var rest := Split(x[1..] + t, sep);
      assert rest[0] == x[1..] + st[0] && rest[1..] == st[1..];
      assert Split(x + t, sep) == [[x[0]] + rest[0]] + rest[1..];
      assert [x[0]] + (x[1..] + st[0]) == x + st[0];
    } else {
      var st := Split(t, sep);
      assert x + t == t;
      assert x + st[0] == st[0];
      assert st == [st[0]] + st[1..];
    }
  }

  /** Splitting separator-free pieces after joining them gives back the pieces. */
  lemma {:induction false} SplitJoin(pieces: seq<string>, sep: char)
    requires |pieces| >= 1
    requires forall k :: 0 <= k < |pieces| ==> sep !in pieces[k]
    ensures Split(Join(pieces, sep), sep) == pieces
  {
    if |pieces| == 1 {
      SplitPrefix(pieces[0], "", sep);
      assert Split("", sep) == [""];
      assert pieces[0] + "" == pieces[0];
    } else {
      var tail := Join(pieces[1..], sep);
      SplitJoin(pieces[1..], sep);
      SplitPrefix(pieces[0], [sep] + tail, sep);
      assert ([sep] + tail)[1..] == tail;
      assert Split([sep] + tail, sep) == [""] + pieces[1..];
      assert pieces[0] + "" == pieces[0];
      assert pieces[0] + [sep] + tail == pieces[0] + ([sep] + tail);
      assert pieces == [pieces[0]] + pieces[1..];
    }
  }

  /** `xs.map((s) => s.trim())`. */
  function TrimEach(xs: seq<string>): (r: seq<string>)
    ensures |r| == |xs|
    ensures forall k :: 0 <= k < |xs| ==> r[k] == Trim(xs[k])
  {
    MapEach(xs, Trim)
  }

  /** `xs.filter(Boolean)`: drops the empty strings and keeps the order of the rest. */
  function DropEmpty(xs: seq<string>): (r: seq<string>)
    ensures |r| <= |xs|
    ensures forall x :: x in r <==> x in xs && x != ""
    ensures (forall k :: 0 <= k < |xs| ==> xs[k] != "") ==> r == xs
  {
    if xs == [] then []
    else if xs[0] == "" then DropEmpty(xs[1..])
    else [xs[0]] + DropEmpty(xs[1..])
  }

  /** `filter(Boolean)` keeps order and duplicates: it distributes over concatenation. */
  lemma {:induction false} DropEmptyAppend(a: seq<string>, b: seq<string>)
    ensures DropEmpty(a + b) == DropEmpty(a) + DropEmpty(b)
  {
    if a == [] {
      assert a + b == b;
    } else {
      var ab := a + b;
      assert ab[0] == a[0] && ab[1..] == a[1..] + b;
      DropEmptyAppend(a[1..], b);
      if a[0] == "" {
        calc {
          DropEmpty(ab);
          DropEmpty(a[1..]) + DropEmpty(b);
          DropEmpty(a) + DropEmpty(b);
        }
      } else {
        calc {
          DropEmpty(ab);
          [a[0]] + DropEmpty(ab[1..]);
          [a[0]] + (DropEmpty(a[1..]) + DropEmpty(b));
          ([a[0]] + DropEmpty(a[1..])) + DropEmpty(b);
          DropEmpty(a) + DropEmpty(b);
        }
      }
    }
  }

  /** `xs.map(f)`. */
  function MapEach(xs: seq<string>, f: string -> string): (r: seq<string>)
    ensures |r| == |xs|
    ensures forall k :: 0 <= k < |xs| ==> r[k] == f(xs[k])
  {
    seq(|xs|, k requires 0 <= k < |xs| => f(xs[k]))
  }

  /** Mapping distributes over concatenation. */
  lemma MapEachAppend(a: seq<string>, b: seq<string>, f: string -> string)
    ensures MapEach(a + b, f) == MapEach(a, f) + MapEach(b, f)
  {
    var l, r := MapEach(a + b, f), MapEach(a, f) + MapEach(b, f);
    forall k | 0 <= k < |l| ensures l[k] == r[k] {
      if k < |a| {
        assert (a + b)[k] == a[k];
      } else {
        assert (a + b)[k] == b[k - |a|];
      }
    }
  }

  /** Trimming each element distributes over concatenation. */
  lemma TrimEachAppend(a: seq<string>, b: seq<string>)
    ensures TrimEach(a + b) == TrimEach(a) + TrimEach(b)
  {
    MapEachAppend(a, b, Trim);
  }

  /** `s.split(',').map((s) => s.trim()).filter(Boolean)`. */
  function CommaList(s: string): (r: seq<string>)
    ensures |r| <= |Split(s, ',')|
    ensures forall x :: x in r ==> IsCleanItem(x)
  {
    DropEmpty(TrimEach(Split(s, ',')))
  }

  /** Every item of a parsed comma list is non-empty, trimmed and comma-free. */
  lemma CommaListClean(s: string)
    ensures forall x :: x in CommaList(s) ==> IsCleanItem(x)
  {
  }

  /** Every non-blank comma-separated piece appears, trimmed, in the parsed list. */
  lemma CommaListKeeps(s: string, p: string)
    requires p in Split(s, ',') && Trim(p) != ""
    ensures Trim(p) in CommaList(s)
  {
  }

  /** Every item of the parsed list is the trim of some comma-separated piece. */
  lemma CommaListFrom(s: string)
    ensures forall x :: x in CommaList(s) ==> exists p :: p in Split(s, ',') && Trim(p) == x
  {
    var pieces := Split(s, ',');
    var trimmed := TrimEach(pieces);
    forall x | x in CommaList(s) ensures exists p :: p in pieces && Trim(p) == x {
      var k :| 0 <= k < |trimmed| && trimmed[k] == x;
      assert pieces[k] in pieces;
    }
  }

  /** Parsing a comma-joined list of clean items gives back the items. */
  lemma CommaListJoin(items: seq<string>)
    requires |items| >= 1
    requires forall k :: 0 <= k < |items| ==> IsCleanItem(items[k])
    ensures CommaList(Join(items, ',')) == items
  {
    SplitJoin(items, ',');
    var trimmed := TrimEach(items);
    forall k | 0 <= k < |items| ensures trimmed[k] == items[k] {
      assert IsCleanItem(items[k]);
    }
    assert trimmed == items;
  }

  /**
   * Parsing a comma-joined list keeps its items in order, with duplicates:
   * the parse of `a` joined to `b` is the parse of `a` followed by the parse of `b`.
   */
  lemma CommaListJoinPair(a: string, b: string)
    ensures CommaList(a + "," + b) == CommaList(a) + CommaList(b)
  {
    var pa := Split(a, ',');
    var pb := Split(b, ',');
    JoinSplit(a, ',');
    JoinSplit(b, ',');
    SplitJoin(pa + pb, ',');
    JoinAppend(pa, pb, ',');
    TrimEachAppend(pa, pb);
    DropEmptyAppend(TrimEach(pa), TrimEach(pb));
  }

  /** Joining two non-empty piece lists puts one separator between their joins. */
  lemma {:induction false} JoinAppend(a: seq<string>, b: seq<string>, sep: char)
    requires |a| >= 1 && |b| >= 1
    ensures Join(a + b, sep) == Join(a, sep) + [sep] + Join(b, sep)
  {
    if |a| == 1 {
      assert (a + b)[1..] == b;
    } else {
      JoinAppend(a[1..], b, sep);
      assert (a + b)[1..] == a[1..] + b;
    }
  }

  /** A blank input parses to the empty list. */
  lemma CommaListBlank(s: string)
    requires Trim(s) == ""
    ensures CommaList(s) == []
  {
    assert !IsSpace(',');
    assert ',' !in s;
    SplitPrefix(s, "", ',');
    assert Split("", ',') == [""];
    assert s + "" == s;
  }

  predicate IsDigit(c: char) {
    '0' <= c <= '9'
  }

  predicate AllDigits(s: string) {
    forall k :: 0 <= k < |s| ==> IsDigit(s[k])
  }

  /** The value of a string of decimal digits. */
  function DigitsValue(s: string): (n: nat)
    requires AllDigits(s)
  {
    if |s| == 0 then 0 else 10 * DigitsValue(s[..|s| - 1]) + (s[|s| - 1] as int - '0' as int)
  }

  /** Trimming leaves alone a string whose first and last characters are not spaces. */
  lemma TrimKeeps(s: string)
    requires s == [] || (!IsSpace(s[0]) && !IsSpace(s[|s| - 1]))
    ensures Trim(s) == s
  {
    assert TrimStart(s) == s;
    assert TrimEnd(s) == s;
  }

  /** The decimal text of a natural number, without leading zeros. */
  function NatText(n: nat): (r: string)
    ensures r != "" && AllDigits(r) && DigitsValue(r) == n
  {
    var d := ['0' + (n % 10) as char];
    if n < 10 then d
    else
      var r := NatText(n / 10) + d;
      assert r[..|r| - 1] == NatText(n / 10);
      r
  }

  /** Text that trims to the digits of `n` reads as `n`. */
  lemma ParseNumDigits(s: string, n: nat)
    requires Trim(s) == NatText(n)
    ensures ParseNum(s) == n
  {
  }

  /** Text that trims to a minus sign and the digits of `n` reads as `-n`. */
  lemma ParseNumNegated(s: string, n: nat)
    requires Trim(s) == "-" + NatText(n)
    ensures ParseNum(s) == -(n as int)
  {
    var t := Trim(s);
    assert !IsDigit(t[0]);
    assert t[1..] == NatText(n);
  }

  /**
   * `Number(x) || 0` reads back the decimal text of every integer: a number
   * and its negation written out parse to their value, padded with spaces or not.
   */
  lemma ParseNumNatText(n: nat)
    ensures ParseNum(NatText(n)) == n
    ensures ParseNum("-" + NatText(n)) == -(n as int)
    ensures ParseNum(" " + NatText(n) + " ") == n
  {
    var t := NatText(n);
    TrimKeeps(t);
    ParseNumDigits(t, n);
    var m := "-" + t;
    assert m[|m| - 1] == t[|t| - 1];
    TrimKeeps(m);
    ParseNumNegated(m, n);
    TrimPadded(t);
    ParseNumDigits(" " + t + " ", n);
  }

  /** One space on each side of text without outer spaces is trimmed away. */
  lemma TrimPadded(t: string)
    requires t != [] && !IsSpace(t[0]) && !IsSpace(t[|t| - 1])
    ensures Trim(" " + t + " ") == t
  {
    var p := " " + t + " ";
    var u := t + " ";
    assert p[1..] == u;
    assert TrimStart(u) == u;
    assert TrimStart(p) == u;
    assert u[..|t|] == t;
    assert TrimEnd(t) == t;
    assert TrimEnd(u) == t;
  }

  /**
   * Trimmed text holding a character that is neither a digit nor a sign is not
   * a number, and reads as 0.
   */
  lemma ParseNumNonNumeric(s: string)
    requires exists k :: 0 <= k < |Trim(s)| && !IsDigit(Trim(s)[k]) && Trim(s)[k] != '-' && Trim(s)[k] != '+'
    ensures ParseNum(s) == 0
  {
    var t := Trim(s);
    var k :| 0 <= k < |t| && !IsDigit(t[k]) && t[k] != '-' && t[k] != '+';
    assert !AllDigits(t);
    if |t| > 1 && 0 < k {
      assert t[1..][k - 1] == t[k];
      assert !AllDigits(t[1..]);
    }
  }

  /**
   * `Number(s) || 0` for integer text: optional sign and decimal digits after
   * trimming; anything else (including blank text) is 0.
   */
  function ParseNum(s: string): (r: int)
    ensures Trim(s) == "" ==> r == 0
  {
    var t := Trim(s);
    if |t| > 0 && AllDigits(t) then DigitsValue(t)
    else if |t| > 1 && t[0] == '-' && AllDigits(t[1..]) then -(DigitsValue(t[1..]) as int)
    else if |t| > 1 && t[0] == '+' && AllDigits(t[1..]) then DigitsValue(t[1..])
    else 0
  }
}
