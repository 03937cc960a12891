/** The `Stats` component: the number of items, the number packed, the rounded
    percentage and the message shown under the list. */
module Stats {
  import opened Items
  import ListStore

  /** The three messages, in the order they are tried. */
  datatype Message = Prepare | Ready | Progress(total: nat, packed: nat, percentage: nat)

  /** `items.filter((item) => item.packed).length` */
  function PackedCount(items: seq<Item>): (n: nat)
    ensures n <= |items|
  {
    |Where(items, true)|
  }

  /** `Math.round((part / whole) * 100)` in exact arithmetic: the integer
      nearest to `100 * part / whole`, halves rounded up. */
  function RoundedPercent(part: nat, whole: nat): (r: nat)
    requires whole > 0
    ensures 2 * whole * r <= 200 * part + whole < 2 * whole * (r + 1)
    ensures part <= whole ==> r <= 100
    ensures part == whole ==> r == 100
    ensures part == 0 ==> r == 0
  {
    var r := (200 * part + whole) / (2 * whole);
    DivisionBounds(200 * part + whole, 2 * whole);
    RoundingBounds(part, whole, r);
    r
  }

  /** Euclidean division brackets its dividend. */
  lemma DivisionBounds(n: nat, d: nat)
    requires d > 0
    ensures d * (n / d) <= n < d * (n / d + 1)
  {
    assert n == d * (n / d) + n % d;
    assert d * (n / d + 1) == d * (n / d) + d;
  }

  lemma MultiplyMonotone(a: nat, b: nat, c: nat)
    requires b <= c
    ensures a * b <= a * c
  {
    assert a * c == a * b + a * (c - b);
  }

  /** The rounded value of a fraction of `whole` in percent lies in 0..100. */
  lemma RoundingBounds(part: nat, whole: nat, r: nat)
    requires whole > 0
    requires 2 * whole * r <= 200 * part + whole < 2 * whole * (r + 1)
    ensures part <= whole ==> r <= 100
    ensures part == whole ==> r == 100
    ensures part == 0 ==> r == 0
  {
    assert 2 * whole * r == (2 * whole) * r;
    assert 2 * whole * (r + 1) == (2 * whole) * r + 2 * whole;
    if part <= whole && r > 100 {
      MultiplyMonotone(2 * whole, 101, r);
      assert false;
    }
    if part == whole && r < 100 {
      MultiplyMonotone(2 * whole, r + 1, 100);
      assert false;
    }
    if part == 0 && r > 0 {
      MultiplyMonotone(2 * whole, 1, r);
      assert false;
    }
  }

  /** `percentage`; `None` stands for the NaN that `0 / 0` gives an empty list. */
  function Percentage(items: seq<Item>): (r: Option<nat>)
    ensures r.None? <==> |items| == 0
    ensures r.Some? ==> r.value <= 100
  {
    if |items| == 0 then None
    else Some(RoundedPercent(PackedCount(items), |items|))
  }

  /** The message choice: an empty list first, then a percentage of 100, then
      the progress line. */
  function Summary(items: seq<Item>): (m: Message)
    ensures m == Prepare <==> |items| == 0
    ensures m == Ready <==> |items| > 0 && Percentage(items) == Some(100)
    ensures m.Progress? ==> m.total == |items| && m.packed == PackedCount(items) &&
                            Percentage(items) == Some(m.percentage) &&
                            m.percentage < 100 && m.packed < m.total
  {
    if |items| == 0 then Prepare
    else if Percentage(items).value == 100 then Ready
    else Progress(|items|, PackedCount(items), Percentage(items).value)
  }

  /** A decimal digit. */
  function Digit(d: nat): (c: char)
    requires d < 10
    ensures '0' <= c <= '9' && c as int - '0' as int == d
  {
    ('0' as int + d) as char
  }

  /** A string of decimal digits. */
  ghost predicate IsDigits(s: string)
  {
    forall i :: 0 <= i < |s| ==> '0' <= s[i] <= '9'
  }

  /** A number as a template literal prints it: its decimal digits, no
      leading zero. */
  function DecimalString(n: nat): (s: string)
    ensures |s| >= 1 && IsDigits(s)
    ensures s[0] == '0' ==> n == 0
    ensures n < 10 <==> |s| == 1
    decreases n
  {
    if n < 10 then [Digit(n)] else DecimalString(n / 10) + [Digit(n % 10)]
  }

  /** The number a string of decimal digits denotes. */
  ghost function DigitsValue(s: string): nat
    requires IsDigits(s)
    decreases |s|
  {
    if s == [] then 0
    else DigitsValue(s[..|s| - 1]) * 10 + (s[|s| - 1] as int - '0' as int)
  }

  /** Reading the printed digits back gives the number. */
  lemma {:induction false} DecimalStringRoundTrip(n: nat)
    ensures DigitsValue(DecimalString(n)) == n
    decreases n
  {
    var s := DecimalString(n);
    if n < 10 {
      assert s[..0] == [];
    } else {
      DecimalStringRoundTrip(n / 10);
      assert s[..|s| - 1] == DecimalString(n / 10);
    }
  }

  /** The text of each message. The two fixed texts are given in full; the
      progress line is the template `You have ... )%`. */
  function MessageText(m: Message): (r: string)
    ensures m == Prepare ==> r == "Prepare your list for travel ✈"
    ensures m == Ready ==> r == "You are ready for travel ✈✈"
    ensures m.Progress? ==> |r| > 11 && r[..9] == "You have " && r[|r| - 2..] == ")%"
  {
    match m
    case Prepare => "Prepare your list for travel ✈"
    case Ready => "You are ready for travel ✈✈"
    case Progress(total, packed, percentage) =>
      "You have " + DecimalString(total) + " items in your list. You have packed " +
      DecimalString(packed) + " items. (" + DecimalString(percentage) + ")%"
  }

  /** The progress line carries the total, the packed count and the
      percentage in decimal, at the places the template gives them. */
  lemma ProgressTextFields(total: nat, packed: nat, percentage: nat)
    ensures var r, a, b, c := MessageText(Progress(total, packed, percentage)),
              DecimalString(total), DecimalString(packed), DecimalString(percentage);
            var i := 9 + |a| + 37;
            var j := i + |b| + 9;
            |r| == j + |c| + 2 &&
            r[..9] == "You have " && r[9..9 + |a|] == a &&
            r[9 + |a|..i] == " items in your list. You have packed " &&
            r[i..i + |b|] == b && r[i + |b|..j] == " items. (" &&
            r[j..j + |c|] == c && r[j + |c|..] == ")%"
  {
    var p0, p1, p2, p3 := "You have ", " items in your list. You have packed ", " items. (", ")%";
    var a, b, c := DecimalString(total), DecimalString(packed), DecimalString(percentage);
    assert |p0| == 9 && |p1| == 37 && |p2| == 9 && |p3| == 2;
    assert MessageText(Progress(total, packed, percentage)) == p0 + a + p1 + b + p2 + c + p3;
    PiecesAt(p0, a, p1, b, p2, c, p3);
  }

  /** Where each of seven concatenated pieces sits. */
  lemma PiecesAt(p0: string, a: string, p1: string, b: string, p2: string, c: string, p3: string)
    ensures var r := p0 + a + p1 + b + p2 + c + p3;
            var h := |p0| + |a|;
            var i := h + |p1|;
            var j := i + |b| + |p2|;
            |r| == j + |c| + |p3| &&
            r[..|p0|] == p0 && r[|p0|..h] == a && r[h..i] == p1 &&
            r[i..i + |b|] == b && r[i + |b|..j] == p2 &&
            r[j..j + |c|] == c && r[j + |c|..] == p3
  {
    var r := p0 + a + p1 + b + p2 + c + p3;
    var h := |p0| + |a|;
    var i := h + |p1|;
    var j := i + |b| + |p2|;
    assert r[..|p0|] == p0;
    assert r[|p0|..h] == a;
    assert r[h..i] == p1;
    assert r[i..i + |b|] == b;
    assert r[i + |b|..j] == p2;
    assert r[j..j + |c|] == c;
    assert r[j + |c|..] == p3;
  }

  /** Messages of different kinds never show the same text. */
  lemma MessageKindsDistinct(m1: Message, m2: Message)
    requires m1.Prepare? != m2.Prepare? || m1.Ready? != m2.Ready?
    ensures MessageText(m1) != MessageText(m2)
  {
    var t1, t2 := MessageText(m1), MessageText(m2);
    assert t1[0] != t2[0] || t1[4] != t2[4] by {
      assert m1.Progress? ==> t1[0] == 'Y' && t1[4] == 'h' by {
        if m1.Progress? { assert t1[..9][4] == 'h'; }
      }
      assert m2.Progress? ==> t2[0] == 'Y' && t2[4] == 'h' by {
        if m2.Progress? { assert t2[..9][4] == 'h'; }
      }
    }
  }
  /** A non-empty list whose items are all packed shows the completion message. */
  lemma AllPackedIsReady(items: seq<Item>)
    requires |items| > 0
    requires forall k :: 0 <= k < |items| ==> items[k].packed
    ensures PackedCount(items) == |items|
    ensures Percentage(items) == Some(100)
    ensures Summary(items) == Ready
  {
    WhereAll(items, true);
  }

  /** A list with nothing packed shows 0 percent, or the empty-list message. */
  lemma NonePackedIsZero(items: seq<Item>)
    requires forall k :: 0 <= k < |items| ==> !items[k].packed
    ensures PackedCount(items) == 0
    ensures |items| > 0 ==> Summary(items) == Progress(|items|, 0, 0)
  {
    WhereAll(items, false);
  }

  /** The converse of `AllPackedIsReady` fails: 199 packed out of 200 rounds to 100. */
  lemma ReadyDoesNotMeanAllPacked()
    ensures RoundedPercent(199, 200) == 100
  {
  }

  /** Clearing the list brings back the empty-list message. */
  lemma ClearedIsPrepare()
    ensures MessageText(Summary([])) == "Prepare your list for travel ✈"
  {
  }

  /** Two unpacked items, socks and passport; toggling socks gives one of two
      packed and 50 percent. */
  lemma SocksScenario()
    ensures Summary(ListStore.ToggledById([Item(Num(1), Num(4), "socks", false),
                                           Item(Num(2), Num(6), "passport", false)], Num(1)))
            == Progress(2, 1, 50)
  {
    var socks := Item(Num(1), Num(4), "socks", false);
    var passport := Item(Num(2), Num(6), "passport", false);
    var items := ListStore.ToggledById([socks, passport], Num(1));
    assert items == [Flipped(socks), passport];
    assert Where(items, true) == [Flipped(socks)] by {
      assert items[1..] == [passport];
      assert Where([passport], true) == [] + Where([], true);
    }
    assert RoundedPercent(1, 2) == 50;
  }

  /** The progress line of that scenario: the template with 2, 1 and 50 printed
      in decimal. */
  lemma SocksScenarioText()
    ensures MessageText(Progress(2, 1, 50))
            == "You have " + "2" + " items in your list. You have packed " + "1" + " items. (" + "50" + ")%"
  {
    assert DecimalString(2) == "2" && DecimalString(1) == "1";
    assert DecimalString(50) == "50" by {
      assert DecimalString(5) == "5" && DecimalString(0) == "0";
    }
  }
}
