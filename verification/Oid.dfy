/** Object identifiers: sequences of numbers, their dotted-decimal text, and their order. */
module Oid {
  import opened Wrappers

  type Oid = seq<nat>

  /** The column is a strict component prefix: the identifier lies in its subtree. */
  predicate Under(column: Oid, oid: Oid) {
    |column| < |oid| && oid[..|column|] == column
  }

  /** Lexicographic order by components. */
  predicate Less(a: Oid, b: Oid) {
    b != [] && (a == [] || a[0] < b[0] || (a[0] == b[0] && Less(a[1..], b[1..])))
  }

  // ---- Order --------------------------------------------------------------------------------

  lemma {:induction false} LessTransitive(a: Oid, b: Oid, c: Oid)
    requires Less(a, b) && Less(b, c)
    ensures Less(a, c)
  {
    if a != [] && a[0] == b[0] == c[0] {
      LessTransitive(a[1..], b[1..], c[1..]);
    }
  }

  lemma {:induction false} LessIrreflexive(a: Oid)
    ensures !Less(a, a)
  {
    if a == [] {
    } else {
      LessIrreflexive(a[1..]);
    }
  }

  /** The order in which section 4.2.2 of RFC 3416 has an agent answer: a name comes before those it is a strict
      prefix of, and otherwise the first different component decides. */
  lemma {:induction false} LessMeans(a: Oid, b: Oid)
    ensures Less(a, b) <==>
            (|a| < |b| && b[..|a|] == a) || exists i: nat :: FirstDifference(a, b, i) && a[i] < b[i]
  {
    if a == [] || b == [] || a[0] != b[0] {
      assert a != [] && b != [] ==> FirstDifference(a, b, 0);
    } else {
      LessMeans(a[1..], b[1..]);
      PrefixBehindFirst(a, b);
      if i: nat :| FirstDifference(a[1..], b[1..], i) && a[1..][i] < b[1..][i] {
        DifferenceBehindFirst(a, b, i);
      }
      if i: nat :| FirstDifference(a, b, i) && a[i] < b[i] {
        assert a[0] == b[0] && i > 0;
        DifferenceBehindFirst(a, b, i - 1);
      }
    }
  }

  lemma PrefixBehindFirst(a: Oid, b: Oid)
    requires a != [] && b != [] && a[0] == b[0]
    ensures |a| < |b| ==> (b[..|a|] == a <==> b[1..][..|a| - 1] == a[1..])
  {
    if |a| < |b| {
      assert a == [a[0]] + a[1..] && b[..|a|] == [b[0]] + b[1..][..|a| - 1];
    }
  }

  lemma DifferenceBehindFirst(a: Oid, b: Oid, i: nat)
    requires a != [] && b != [] && a[0] == b[0]
    ensures FirstDifference(a[1..], b[1..], i) <==> FirstDifference(a, b, i + 1)
  {
    if i < |a| - 1 && i < |b| - 1 {
      assert a[..i + 1] == [a[0]] + a[1..][..i] && b[..i + 1] == [b[0]] + b[1..][..i];
    }
  }

  predicate FirstDifference(a: Oid, b: Oid, i: nat) {
    i < |a| && i < |b| && a[..i] == b[..i] && a[i] != b[i]
  }

  lemma {:induction false} UnderIsAfter(column: Oid, oid: Oid)
    requires Under(column, oid)
    ensures Less(column, oid)
  {
    if column == [] {
    } else {
      assert oid[1..][..|column| - 1] == column[1..];
      UnderIsAfter(column[1..], oid[1..]);
    }
  }

  /** A subtree is an interval that starts right after its root. */
  lemma {:induction false} SubtreeIsInterval(column: Oid, a: Oid, b: Oid)
    requires Less(column, a) && Less(a, b) && Under(column, b)
    ensures Under(column, a)
  {
    if column == [] {
    } else {
      assert b[1..][..|column| - 1] == column[1..] && b[0] == column[0];
      assert a[0] == column[0];
      SubtreeIsInterval(column[1..], a[1..], b[1..]);
      assert a == [a[0]] + a[1..] && column == [column[0]] + column[1..];
      assert a[..|column|] == [a[0]] + a[1..][..|column| - 1];
    }
  }

  // ---- Decimal text -------------------------------------------------------------------------

  predicate IsDigit(c: char) {
    '0' <= c <= '9'
  }

  predicate Digits(s: string) {
    forall i :: 0 <= i < |s| ==> IsDigit(s[i])
  }

  function Decimal(n: nat): (s: string)
    ensures s != ""
  {
    var digit := '0' + (n % 10) as char;
    if n < 10 then [digit] else Decimal(n / 10) + [digit]
  }

  lemma {:induction false} DecimalIsDigits(n: nat)
    ensures Digits(Decimal(n)) && NoDot(Decimal(n))
  {
    if n >= 10 {
      DecimalIsDigits(n / 10);
    }
  }

  function Number(s: string): nat
    requires Digits(s)
  {
    if s == "" then 0 else 10 * Number(s[..|s| - 1]) + (s[|s| - 1] as int - '0' as int)
  }

  lemma {:induction false} NumberOfDecimal(n: nat)
    ensures Digits(Decimal(n)) && NoDot(Decimal(n)) && Number(Decimal(n)) == n
  {
    DecimalIsDigits(n);
    if n >= 10 {
      NumberOfDecimal(n / 10);
      assert Decimal(n)[..|Decimal(n)| - 1] == Decimal(n / 10);
    }
  }

  // ---- Dotted text --------------------------------------------------------------------------

  function Render(oid: Oid): string {
    if oid == [] then ""
    else if |oid| == 1 then Decimal(oid[0])
    else Decimal(oid[0]) + "." + Render(oid[1..])
  }

  predicate NoDot(s: string) {
    forall i :: 0 <= i < |s| ==> s[i] != '.'
  }

  /** The position of the first dot, or the length of the text. */
  function FirstDot(s: string): (i: nat)
    ensures i <= |s|
  {
    if s == "" || s[0] == '.' then 0 else 1 + FirstDot(s[1..])
  }

  lemma {:induction false} FirstDotIs(s: string, i: nat)
    requires i <= |s| && (forall j :: 0 <= j < i ==> s[j] != '.') && (i < |s| ==> s[i] == '.')
    ensures FirstDot(s) == i
  {
    if i > 0 {
      FirstDotIs(s[1..], i - 1);
    }
  }

  function Parse(s: string): Option<Oid> {
    var i := FirstDot(s);
    if i == 0 || !Digits(s[..i]) then None
    else if i == |s| then Some([Number(s)])
    else
      match Parse(s[i + 1..])
      case None => None
      case Some(rest) => Some([Number(s[..i])] + rest)
  }

  lemma FirstDotAfter(head: string, tail: string)
    requires NoDot(head)
    ensures FirstDot(head + "." + tail) == |head|
  {
    var s := head + "." + tail;
    assert s[|head|] == '.' && forall j :: 0 <= j < |head| ==> s[j] == head[j];
    FirstDotIs(s, |head|);
  }

  lemma ParseNumber(head: string)
    requires head != "" && Digits(head)
    ensures Parse(head) == Some([Number(head)])
  {
    assert NoDot(head) && head[..|head|] == head;
    FirstDotIs(head, |head|);
  }

  lemma ParseBehindNumber(head: string, tail: string)
    requires head != "" && Digits(head) && Parse(tail).Some?
    ensures Parse(head + "." + tail) == Some([Number(head)] + Parse(tail).value)
  {
    var s := head + "." + tail;
    assert NoDot(head);
    FirstDotAfter(head, tail);
    assert s[..|head|] == head && s[|head| + 1..] == tail;
  }

  /** Reading back the text of an identifier gives the identifier. */
  lemma {:induction false} ParseRender(oid: Oid)
    requires oid != []
    ensures Parse(Render(oid)) == Some(oid)
  {
    NumberOfDecimal(oid[0]);
    if |oid| == 1 {
      ParseNumber(Decimal(oid[0]));
      assert oid == [oid[0]];
    } else {
      ParseRender(oid[1..]);
      ParseBehindNumber(Decimal(oid[0]), Render(oid[1..]));
      assert oid == [oid[0]] + oid[1..];
    }
  }

  /** The text is decimal. */
  lemma RenderExample()
    ensures Render([1, 3, 120]) == "1.3.120"
  {
    assert Decimal(12) == Decimal(1) + ['2'] == "12";
    assert Decimal(120) == Decimal(12) + ['0'] == "120";
    assert [1, 3, 120][1..] == [3, 120] && [3, 120][1..] == [120];
    assert Render([3, 120]) == "3" + "." + "120";
  }

  // ---- The prefix test on text --------------------------------------------------------------

  predicate StartsWith(s: string, prefix: string) {
    |prefix| <= |s| && s[..|prefix|] == prefix
  }

  /** The test on text, that an identifier starts with the column and a dot, holds exactly when the
      column is a strict component prefix, and the text after it is that of the remaining components. */
  lemma {:induction false} PrefixTestMeansUnder(column: Oid, oid: Oid)
    requires column != [] && oid != []
    ensures StartsWith(Render(oid), Render(column) + ".") <==> Under(column, oid)
    ensures Under(column, oid) ==> Render(oid)[|Render(column)| + 1..] == Render(oid[|column|..])
  {
    if |oid| == 1 {
      NumberOfDecimal(oid[0]);
      NumberOfDecimal(column[0]);
      NoDotNoPrefix(Render(oid), Render(column) + ".");
    } else if column[0] != oid[0] {
      OtherHead(column, oid);
    } else if |column| == 1 {
      assert Render(oid) == (Render(column) + ".") + Render(oid[1..]);
      assert oid[..1] == column;
    } else {
      PrefixTestMeansUnder(column[1..], oid[1..]);
      TestBehindHead(column, oid);
    }
  }

  lemma OtherHead(column: Oid, oid: Oid)
    requires column != [] && |oid| > 1 && column[0] != oid[0]
    ensures !StartsWith(Render(oid), Render(column) + ".")
  {
    NumberOfDecimal(column[0]);
    NumberOfDecimal(oid[0]);
    if StartsWith(Render(oid), Render(column) + ".") {
      SameHead(column, Render(oid), Decimal(oid[0]), Render(oid[1..]));
      assert false;
    }
  }

  lemma TestBehindHead(column: Oid, oid: Oid)
    requires |column| > 1 && |oid| > 1 && column[0] == oid[0]
    requires StartsWith(Render(oid[1..]), Render(column[1..]) + ".") <==> Under(column[1..], oid[1..])
    requires Under(column[1..], oid[1..]) ==>
               Render(oid[1..])[|Render(column[1..])| + 1..] == Render(oid[1..][|column| - 1..])
    ensures StartsWith(Render(oid), Render(column) + ".") <==> Under(column, oid)
    ensures Under(column, oid) ==> Render(oid)[|Render(column)| + 1..] == Render(oid[|column|..])
  {
    var head := Decimal(column[0]);
    PrefixBehindHead(head + ".", Render(oid[1..]), Render(column[1..]) + ".");
    assert Render(column) + "." == head + "." + (Render(column[1..]) + ".");
    UnderBehindHead(column, oid);
  }

  lemma NoDotNoPrefix(text: string, prefix: string)
    requires NoDot(text) && prefix != "" && prefix[|prefix| - 1] == '.'
    ensures !StartsWith(text, prefix)
  {
    assert |prefix| <= |text| ==> text[|prefix| - 1] == text[..|prefix|][|prefix| - 1];
  }

  /** If the text starts with the column, its first number is the first number of the column. */
  lemma SameHead(column: Oid, text: string, first: string, tail: string)
    requires column != [] && text == first + "." + tail && NoDot(first)
    requires StartsWith(text, Render(column) + ".")
    ensures first == Decimal(column[0])
  {
    var behind := BehindFirstNumber(column, text);
    DecimalIsDigits(column[0]);
    FirstDotAfter(first, tail);
    FirstDotAfter(Decimal(column[0]), behind);
    assert first == text[..|first|] && Decimal(column[0]) == text[..|Decimal(column[0])|];
  }

  lemma Reassociate(a: string, b: string, c: string)
    ensures (a + "." + b) + "." + c == a + "." + (b + "." + c)
  {
  }

  lemma BehindFirstNumber(column: Oid, text: string) returns (behind: string)
    requires column != [] && StartsWith(text, Render(column) + ".")
    ensures text == Decimal(column[0]) + "." + behind
  {
    var more := text[|Render(column)| + 1..];
    assert text == Render(column) + "." + more;
    if |column| == 1 {
      behind := more;
    } else {
      behind := Render(column[1..]) + "." + more;
      Reassociate(Decimal(column[0]), Render(column[1..]), more);
    }
  }

  lemma PrefixBehindHead(head: string, tail: string, prefix: string)
    ensures StartsWith(head + tail, head + prefix) <==> StartsWith(tail, prefix)
    ensures (head + tail)[|head|..] == tail
    ensures |prefix| <= |tail| ==> (head + tail)[|head + prefix|..] == tail[|prefix|..]
  {
    if |prefix| <= |tail| {
      assert (head + tail)[..|head + prefix|] == head + tail[..|prefix|];
      assert (head + prefix)[|head|..] == prefix && (head + tail[..|prefix|])[|head|..] == tail[..|prefix|];
    }
  }

  lemma UnderBehindHead(column: Oid, oid: Oid)
    requires column != [] && oid != [] && column[0] == oid[0]
    ensures Under(column, oid) <==> Under(column[1..], oid[1..])
    ensures |column| <= |oid| ==> oid[|column|..] == oid[1..][|column| - 1..]
  {
    assert column == [column[0]] + column[1..];
    if |column| <= |oid| {
      assert oid[..|column|] == [oid[0]] + oid[1..][..|column| - 1];
    }
  }
}
