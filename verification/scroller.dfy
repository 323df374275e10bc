/** The scroller of the proportional gadget: the top line and the pot are two views of one position. */
module Scroller {
  import opened Arithmetic

  const MAXPOT: int := 0xFFFF
  const MAXBODY: int := 0xFFFF

  type UWord = i: int | 0 <= i < 0x1_0000
  type SignedWord = i: int | -0x8000 <= i < 0x8000
  type ULong = i: int | 0 <= i < 0x1_0000_0000

  /** The conversion of an int to ULONG. */
  function ToULong(i: int): ULong {
    i % 0x1_0000_0000
  }

  function Hidden(total: UWord, visible: UWord): UWord {
    if total > visible then total - visible else 0
  }

  function Clamped(top: UWord, hidden: UWord): UWord {
    if top > hidden then hidden else top
  }

  /** q is num / den rounded down. */
  predicate Quotient(q: int, num: int, den: int) {
    q * den <= num < (q + 1) * den
  }

  /** The pot is the share top / hidden of MAXPOT, rounded down. */
  predicate PotFor(pot: UWord, top: UWord, hidden: UWord) {
    if hidden == 0 then pot == 0 else Quotient(pot, top * MAXPOT, hidden)
  }

  /** The body is the visible share of MAXBODY, rounded down. */
  predicate BodyFor(body: UWord, total: UWord, visible: UWord, overlap: SignedWord) {
    if total > visible then Quotient(body, (visible - overlap) * MAXBODY, total - overlap) else body == MAXBODY
  }

  /** The top is the line nearest to the pot. */
  predicate TopFor(top: UWord, pot: UWord, hidden: UWord) {
    -MAXPOT <= 2 * (top * MAXPOT - hidden * pot) <= MAXPOT
  }

  // ---------- arithmetic ----------

  /** Every product of two UWORDs, with half a MAXPOT added, fits into a ULONG. */
  lemma NoOverflow(a: UWord, b: UWord)
    ensures 0 <= a * b <= MAXPOT * MAXPOT
    ensures a * b + MAXPOT / 2 < 0x1_0000_0000
  {
    MulOrder(0, a, b);
    MulOrder(a, MAXPOT, b);
  }

  lemma DivIsQuotient(num: nat, den: int)
    requires den > 0
    ensures Quotient(num / den, num, den)
  {
    assert num == (num / den) * den + num % den;
    assert (num / den + 1) * den == (num / den) * den + den;
  }

  lemma QuotientBound(q: int, num: nat, den: int, bound: int)
    requires den > 0 && Quotient(q, num, den) && num <= bound * den
    ensures 0 <= q <= bound
  {
    MulStrict(0, q + 1, den);
    MulStrict(q, bound + 1, den);
    assert (bound + 1) * den == bound * den + den;
  }

  // ---------- the two conversions ----------

  /** The body is right if and only if the visible lines without the overlap are not negative and their
      product with MAXBODY fits into a ULONG.  The only caller passes no overlap; an overlap of all
      lines would divide by zero. */
  method FindScrollerValues(total: UWord, visible: UWord, top: UWord, overlap: SignedWord)
    returns (body: UWord, pot: UWord)
    requires total > visible ==> overlap != total
    ensures PotFor(pot, Clamped(top, Hidden(total, visible)), Hidden(total, visible))
    ensures BodyFor(body, total, visible, overlap) <==> total <= visible || overlap <= visible <= overlap + 0x1_0001
  {
    hide Quotient;
    var hidden: UWord := if total > visible then total - visible else 0;
    var line := top;
    if line > hidden {
      line := hidden;
    }
    body, pot := MAXBODY, 0;
    if hidden > 0 {
      BodyExact(total, visible, overlap);
      body := ToULong(ToULong(visible - overlap) * MAXBODY) / ToULong(total - overlap) % 0x1_0000;
      pot := Share(line, hidden);
    }
  }

  lemma BodyExact(total: UWord, visible: UWord, overlap: SignedWord)
    requires total > visible && overlap != total
    ensures ToULong(total - overlap) > 0
    ensures var body := ToULong(ToULong(visible - overlap) * MAXBODY) / ToULong(total - overlap) % 0x1_0000;
      Quotient(body, (visible - overlap) * MAXBODY, total - overlap) <==> overlap <= visible <= overlap + 0x1_0001
  {
    var part, whole := visible - overlap, total - overlap;
    Divisor(whole);
    hide Quotient, ToULong;
    if part < 0 {
      NoQuotient(ToULong(ToULong(part) * MAXBODY) / ToULong(whole) % 0x1_0000, part * MAXBODY, whole);
    } else if part <= 0x1_0001 {
      InRange(part, whole);
    } else {
      WrappedAround(part, whole);
    }
  }

  lemma Divisor(whole: int)
    requires whole != 0 && -0x1_0000 < whole < 0x1_8000
    ensures ToULong(whole) > 0
  {
  }

  lemma InRange(part: int, whole: int)
    requires 0 <= part <= 0x1_0001 && part < whole < 0x1_8000
    ensures ToULong(whole) > 0
    ensures Quotient(ToULong(ToULong(part) * MAXBODY) / ToULong(whole) % 0x1_0000, part * MAXBODY, whole)
  {
    Small(part);
    Small(whole);
    Small(part * MAXBODY);
    hide ToULong, Quotient;
    MulOrder(part, whole, MAXBODY);
    DivIsQuotient(part * MAXBODY, whole);
    QuotientBound(part * MAXBODY / whole, part * MAXBODY, whole, MAXBODY);
    LowWordSame(part * MAXBODY / whole);
  }

  lemma LowWordSame(q: int)
    requires 0 <= q <= MAXBODY
    ensures q % 0x1_0000 == q
  {
  }

  lemma NoQuotient(q: nat, num: int, den: int)
    requires num < 0
    ensures !Quotient(q, num, den)
  {
    if den > 0 {
      MulOrder(0, q, den);
    } else {
      assert (q + 1) * den == q * den + den;
    }
  }

  /** Above 65537 lines the product has lost 2^32, more than one body's worth of the whole. */
  lemma WrappedAround(part: int, whole: int)
    requires 0x1_0001 < part < whole < 0x1_8000
    ensures !Quotient(ToULong(ToULong(part) * MAXBODY) / ToULong(whole) % 0x1_0000, part * MAXBODY, whole)
  {
    var lost := LostProduct(part);
    DivIsQuotient(lost, whole);
    LowWord(lost / whole);
    Small(part);
    Small(whole);
    hide Quotient, ToULong;
    TooSmall(lost / whole % 0x1_0000, lost / whole, part * MAXBODY, lost, whole);
  }

  lemma Small(i: int)
    requires 0 <= i < 0x1_0000_0000
    ensures ToULong(i) == i
  {
  }

  lemma LowWord(q: nat)
    ensures 0 <= q % 0x1_0000 <= q
  {
  }

  lemma LostProduct(part: int) returns (lost: nat)
    requires 0x1_0001 < part < 0x1_8000
    ensures lost == part * MAXBODY - 0x1_0000_0000 == ToULong(part * MAXBODY)
  {
    lost := part * MAXBODY - 0x1_0000_0000;
  }

  lemma TooSmall(q: nat, most: nat, num: int, lost: int, den: int)
    requires q <= most && den > 0 && Quotient(most, lost, den) && lost + den <= num
    ensures !Quotient(q, num, den)
  {
    MulOrder(q, most, den);
    assert (q + 1) * den == q * den + den;
  }

  /** The share part / whole of MAXPOT, rounded down; the product is a ULONG. */
  method Share(part: UWord, whole: UWord) returns (q: UWord)
    requires 0 < whole && part <= whole
    ensures Quotient(q, part * MAXPOT, whole)
  {
    NoOverflow(part, MAXPOT);
    MulOrder(part, whole, MAXPOT);
    var product: ULong := part * MAXPOT;
    DivIsQuotient(product, whole);
    QuotientBound(product / whole, product, whole, MAXPOT);
    q := product / whole;
  }

  method FindScrollerTop(total: UWord, visible: UWord, pot: UWord) returns (top: UWord)
    ensures TopFor(top, pot, Hidden(total, visible))
    ensures top <= Hidden(total, visible)
  {
    var hidden: UWord := if total > visible then total - visible else 0;
    NoOverflow(hidden, pot);
    var scaled: ULong := hidden * pot + MAXPOT / 2;
    MulOrder(pot, MAXPOT, hidden);
    NearestBelow(hidden * pot, hidden);
    top := scaled / MAXPOT;
  }

  /** Rounding num / MAXPOT to the nearest integer. */
  lemma NearestBelow(num: int, bound: UWord)
    requires 0 <= num <= bound * MAXPOT
    ensures var q := (num + MAXPOT / 2) / MAXPOT; 0 <= q <= bound && -MAXPOT <= 2 * (q * MAXPOT - num) <= MAXPOT
  {
  }

  // ---------- the round trip ----------

  /** A clamped top comes back unchanged if and only if the division that made the pot leaves at most
      half a MAXPOT, and one lower otherwise. */
  lemma RoundTrip(top: UWord, hidden: UWord, pot: UWord, back: UWord)
    requires 0 < hidden && top <= hidden
    requires PotFor(pot, top, hidden) && TopFor(back, pot, hidden)
    ensures back == if (top * MAXPOT) % hidden <= MAXPOT / 2 then top else top - 1
  {
    var r := top * MAXPOT - pot * hidden;
    assert 0 <= r < hidden by {
      assert (pot + 1) * hidden == pot * hidden + hidden;
    }
    RemainderIs(top * MAXPOT, pot, r, hidden);
    assert hidden * pot == top * MAXPOT - r;
  }

  /** The round trip loses a line. */
  predicate Loses(line: UWord, hidden: UWord) {
    hidden > 0 && (line * MAXPOT) % hidden > MAXPOT / 2
  }

  lemma ThereAndBack(line: UWord, hidden: UWord, pot: UWord, back: UWord)
    requires line <= hidden && PotFor(pot, line, hidden) && TopFor(back, pot, hidden) && back <= hidden
    ensures back == if Loses(line, hidden) then line - 1 else line
  {
    if hidden > 0 {
      hide PotFor, TopFor;
      RoundTrip(line, hidden, pot, back);
    }
  }

  /** With at most 32768 hidden lines, and for the two end positions, nothing is lost. */
  lemma ExactWhenSmall(top: UWord, hidden: UWord, pot: UWord, back: UWord)
    requires top <= hidden
    requires PotFor(pot, top, hidden) && TopFor(back, pot, hidden)
    requires hidden <= 32768 || top == 0 || top == hidden
    ensures back == top
  {
    if hidden > 0 {
      RoundTrip(top, hidden, pot, back);
      RemainderIs(0, 0, 0, hidden);
      RemainderIs(hidden * MAXPOT, MAXPOT, 0, hidden);
    }
  }

  /** With 65534 hidden lines, line 40000 is read back as line 39999. */
  lemma OneLower()
    ensures exists pot: UWord, back: UWord :: PotFor(pot, 40000, 65534) && TopFor(back, pot, 65534) && back == 39999
  {
    assert PotFor(40000, 40000, 65534) && TopFor(39999, 40000, 65534);
  }

  /** Moving down never moves the pot up, and moving the pot never moves the top the other way. */
  lemma Monotone(top1: UWord, top2: UWord, hidden: UWord, pot1: UWord, pot2: UWord)
    requires top1 <= top2 <= hidden && PotFor(pot1, top1, hidden) && PotFor(pot2, top2, hidden)
    ensures pot1 <= pot2
  {
    if hidden > 0 {
      MulStrict(pot1, pot2 + 1, hidden);
    }
  }

  lemma TopMonotone(pot1: UWord, pot2: UWord, hidden: UWord, top1: UWord, top2: UWord)
    requires pot1 <= pot2 && TopFor(top1, pot1, hidden) && TopFor(top2, pot2, hidden)
    ensures top1 <= top2
  {
    MulOrder(pot1, pot2, hidden);
  }

  // ---------- the gadget ----------

  datatype Tag =
    | Top(value: ULong) | Visible(value: ULong) | Total(value: ULong)
    | HorizPot(value: ULong) | HorizBody(value: ULong) | VertPot(value: ULong) | VertBody(value: ULong)
    | Freedom(vertical: bool)
    | Other
  {
    /** Tags of different kinds set different attributes. */
    predicate SameKind(t: Tag) {
      match this
      case Top(_) => t.Top?
      case Visible(_) => t.Visible?
      case Total(_) => t.Total?
      case HorizPot(_) => t.HorizPot?
      case HorizBody(_) => t.HorizBody?
      case VertPot(_) => t.VertPot?
      case VertBody(_) => t.VertBody?
      case Freedom(_) => t.Freedom?
      case Other => t.Other?
    }
  }

  function Word(v: ULong): UWord {
    v % 0x1_0000
  }

  /** Pot and body of one axis. */
  datatype Knob = Knob(pot: UWord, body: UWord)

  /** What the tags have set so far; asked says whether Top, Visible or Total was among them. */
  datatype Attributes = Attributes(top: UWord, visible: UWord, total: UWord, horiz: Knob, vert: Knob, vertical: bool,
      asked: bool) {
    function With(t: Tag): Attributes {
      match t
      case Top(v) => this.(top := Word(v), asked := true)
      case Visible(v) => this.(visible := Word(v), asked := true)
      case Total(v) => this.(total := Word(v), asked := true)
      case HorizPot(v) => this.(horiz := horiz.(pot := Word(v)))
      case HorizBody(v) => this.(horiz := horiz.(body := Word(v)))
      case VertPot(v) => this.(vert := vert.(pot := Word(v)))
      case VertBody(v) => this.(vert := vert.(body := Word(v)))
      case Freedom(v) => this.(vertical := v)
      case Other => this
    }
  }

  function WithAll(a: Attributes, tags: seq<Tag>): Attributes {
    if tags == [] then a else WithAll(a, tags[..|tags| - 1]).With(tags[|tags| - 1])
  }

  lemma {:induction false} WithConcat(a: Attributes, s: seq<Tag>, t: seq<Tag>)
    ensures WithAll(a, s + t) == WithAll(WithAll(a, s), t)
    decreases |t|
  {
    if t == [] {
      assert s + t == s;
    } else {
      assert (s + t)[..|s + t| - 1] == s + t[..|t| - 1];
      WithConcat(a, s, t[..|t| - 1]);
    }
  }

  /** The order of tags of different kinds does not matter: a top is clamped by the total and visible
      that come later in the list, too. */
  lemma TagOrderIrrelevant(a: Attributes, s: seq<Tag>, x: Tag, y: Tag, t: seq<Tag>)
    requires !x.SameKind(y)
    ensures WithAll(a, s + [x, y] + t) == WithAll(a, s + [y, x] + t)
  {
    WithConcat(a, s + [x, y], t);
    WithConcat(a, s + [y, x], t);
    WithConcat(a, s, [x, y]);
    WithConcat(a, s, [y, x]);
    hide Attributes.With;
    var b := WithAll(a, s);
    TwoTags(b, x, y);
    TwoTags(b, y, x);
    Commute(b, x, y);
  }

  lemma TwoTags(a: Attributes, x: Tag, y: Tag)
    ensures WithAll(a, [x, y]) == a.With(x).With(y)
  {
    hide Attributes.With;
    assert [x, y][..1] == [x] && [x][..0] == [];
    assert WithAll(a, [x]) == WithAll(a, []).With(x);
  }

  lemma Commute(a: Attributes, x: Tag, y: Tag)
    requires !x.SameKind(y)
    ensures a.With(x).With(y) == a.With(y).With(x)
  {
  }

  /** The last tag of its kind sets its own attribute, whatever comes before it and whatever tags of other kinds
      come after it. */
  lemma LastTagSets(a: Attributes, s: seq<Tag>, x: Tag, t: seq<Tag>)
    requires forall y :: y in t ==> !x.SameKind(y)
    ensures var b := WithAll(a, s + [x] + t);
      match x
      case Top(v) => b.top == Word(v) && b.asked
      case Visible(v) => b.visible == Word(v) && b.asked
      case Total(v) => b.total == Word(v) && b.asked
      case HorizPot(v) => b.horiz.pot == Word(v)
      case HorizBody(v) => b.horiz.body == Word(v)
      case VertPot(v) => b.vert.pot == Word(v)
      case VertBody(v) => b.vert.body == Word(v)
      case Freedom(v) => b.vertical == v
      case Other => true
  {
    WithConcat(a, s + [x], t);
    WithConcat(a, s, [x]);
    OneTag(WithAll(a, s), x);
    OthersKeep(WithAll(a, s + [x]), x, t);
  }

  /** Without a tag of its kind an attribute keeps its value, and only Top, Visible and Total count as asked. */
  lemma {:induction false} OthersKeep(a: Attributes, x: Tag, t: seq<Tag>)
    requires forall y :: y in t ==> !x.SameKind(y)
    ensures var b := WithAll(a, t);
      && (a.asked ==> b.asked)
      && (!a.asked && b.asked ==> exists y :: y in t && (y.Top? || y.Visible? || y.Total?))
      && match x
         case Top(_) => b.top == a.top
         case Visible(_) => b.visible == a.visible
         case Total(_) => b.total == a.total
         case HorizPot(_) => b.horiz.pot == a.horiz.pot
         case HorizBody(_) => b.horiz.body == a.horiz.body
         case VertPot(_) => b.vert.pot == a.vert.pot
         case VertBody(_) => b.vert.body == a.vert.body
         case Freedom(_) => b.vertical == a.vertical
         case Other => true
    decreases |t|
  {
    if t != [] {
      var front, last := t[..|t| - 1], t[|t| - 1];
      assert t == front + [last] && last in t;
      OthersKeep(a, x, front);
      OtherKeeps(WithAll(a, front), x, last);
    }
  }

  lemma OtherKeeps(a: Attributes, x: Tag, y: Tag)
    requires !x.SameKind(y)
    ensures var b := a.With(y);
      && (b.asked <==> a.asked || y.Top? || y.Visible? || y.Total?)
      && match x
         case Top(_) => b.top == a.top
         case Visible(_) => b.visible == a.visible
         case Total(_) => b.total == a.total
         case HorizPot(_) => b.horiz.pot == a.horiz.pot
         case HorizBody(_) => b.horiz.body == a.horiz.body
         case VertPot(_) => b.vert.pot == a.vert.pot
         case VertBody(_) => b.vert.body == a.vert.body
         case Freedom(_) => b.vertical == a.vertical
         case Other => true
  {
  }

  class PropGadget {
    var total: UWord
    var visible: UWord
    var top: UWord
    var horiz: Knob
    var vert: Knob
    var vertical: bool
    const niceNotify: bool
    /** The notifications sent: the top, and whether the change is final. */
    var sent: seq<(UWord, bool)>

    /** The defaults that PropGClass__OM_NEW sets before it applies the tags. */
    constructor (niceNotify: bool)
      ensures top == 0 && visible == 1 && total == 1 && vertical && sent == []
      ensures horiz == vert == Knob(0, MAXBODY) && this.niceNotify == niceNotify
      ensures PotFor(Current().pot, top, Hidden(total, visible)) && BodyFor(Current().body, total, visible, 0)
    {
      total, visible, top := 1, 1, 0;
      horiz, vert := Knob(0, MAXBODY), Knob(0, MAXBODY);
      vertical, this.niceNotify, sent := true, niceNotify, [];
    }

    function Now(): Attributes
      reads this
    {
      Attributes(top, visible, total, horiz, vert, vertical, false)
    }

    /** Pot and body of the axis in which the gadget moves. */
    function Current(): Knob
      reads this
    {
      if vertical then vert else horiz
    }

    /** The tag loop and the clamping of PropGClass__OM_SET. */
    method Set(tags: seq<Tag>)
      modifies this
      ensures var a := old(WithAll(Now(), tags)); var hidden := Hidden(a.total, a.visible);
        && total == a.total && visible == a.visible && vertical == a.vertical
        && (!a.asked ==> top == a.top && horiz == a.horiz && vert == a.vert && sent == old(sent))
        && (a.asked ==>
              && top == Clamped(a.top, hidden)
              && PotFor(Current().pot, top, hidden) && BodyFor(Current().body, total, visible, 0)
              && (if vertical then horiz == a.horiz else vert == a.vert)
              && sent == old(sent) + if old(top) != top && niceNotify then [(top, true)] else [])
    {
      hide PotFor, BodyFor;
      ghost var before := Now();
      var newTop, asked := top, false;
      for i := 0 to |tags|
        invariant Attributes(newTop, visible, total, horiz, vert, vertical, asked) == WithAll(before, tags[..i])
        invariant !asked ==> newTop == top
        invariant top == before.top && sent == old(sent)
      {
        assert tags[..i + 1][..i] == tags[..i];
        match tags[i] {
          case Top(v) => newTop, asked := Word(v), true;
          case Visible(v) => visible, asked := Word(v), true;
          case Total(v) => total, asked := Word(v), true;
          case HorizPot(v) => horiz := horiz.(pot := Word(v));
          case HorizBody(v) => horiz := horiz.(body := Word(v));
          case VertPot(v) => vert := vert.(pot := Word(v));
          case VertBody(v) => vert := vert.(body := Word(v));
          case Freedom(v) => vertical := v;
          case Other =>
        }
      }
      assert tags[..|tags|] == tags;
      if asked {
        Settle(newTop);
      }
    }

    /** The end of PropGClass__OM_SET: the top is clamped and the current knob follows it. */
    method Settle(asked: UWord)
      modifies this`top, this`sent, this`horiz, this`vert
      ensures var hidden := Hidden(total, visible);
        && top == Clamped(asked, hidden)
        && PotFor(Current().pot, top, hidden) && BodyFor(Current().body, total, visible, 0)
        && (if vertical then horiz == old(horiz) else vert == old(vert))
        && sent == old(sent) + if old(top) != top && niceNotify then [(top, true)] else []
    {
      hide PotFor, BodyFor;
      var newTop := asked;
      if total > visible {
        if newTop > total - visible {
          newTop := total - visible;
        }
      } else {
        newTop := 0;
      }
      if top != newTop {
        top := newTop;
        if niceNotify {
          sent := sent + [(top, true)];
        }
      }
      var body, pot := FindScrollerValues(total, visible, top, 0);
      if vertical {
        vert := Knob(pot, body);
      } else {
        horiz := Knob(pot, body);
      }
    }

    /** The top follows the knob; every final change and every real one is announced. */
    method UpdateTop(final: bool)
      modifies this`top, this`sent
      ensures TopFor(top, Current().pot, Hidden(total, visible)) && top <= Hidden(total, visible)
      ensures sent == old(sent) + if top != old(top) || final then [(top, final)] else []
    {
      var pot := if vertical then vert.pot else horiz.pot;
      var line := FindScrollerTop(total, visible, pot);
      if line != top || final {
        top := line;
        sent := sent + [(line, final)];
      }
    }
  }

  /** After setting the top, an interim update that finds the knob where it was set announces a change
      exactly when the round trip loses a line. */
  method SetThenUpdate(g: PropGadget, top: UWord)
    modifies g
    ensures var hidden := old(Hidden(g.total, g.visible)); var line := Clamped(top, hidden);
      var lost := Loses(line, hidden);
      && g.total == old(g.total) && g.visible == old(g.visible)
      && g.top == (if lost then line - 1 else line)
      && g.sent == old(g.sent) + (if old(g.top) != line && g.niceNotify then [(line, true)] else [])
                   + if lost then [(line - 1, false)] else []
  {
    hide PotFor, BodyFor, TopFor, Loses;
    var tags := [Top(top)];
    OneTag(g.Now(), Top(top));
    g.Set(tags);
    var line := g.top;
    ghost var hidden := Hidden(g.total, g.visible);
    ghost var pot := g.Current().pot;
    g.UpdateTop(false);
    ThereAndBack(line, hidden, pot, g.top);
  }

  lemma OneTag(a: Attributes, tag: Tag)
    ensures WithAll(a, [tag]) == a.With(tag)
  {
    assert [tag][..0] == [];
    assert WithAll(a, []) == a;
  }
}
