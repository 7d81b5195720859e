/** The order of included headers. */
module IncludeOrder {
  import opened Text

  datatype Kind = CSystem | CppSystem | OtherSystem | LikelyMy | PossibleMy | Other

  datatype Section = Initial | MyHeader | CSection | CppSection | OtherSysSection | OtherHeader

  function Rank(s: Section): nat {
    match s
    case Initial => 0
    case MyHeader => 1
    case CSection => 2
    case CppSection => 3
    case OtherSysSection => 4
    case OtherHeader => 5
  }

  /** The section a header belongs in when the file is in section `s`; a header of
      the file itself that comes late counts as any other header. */
  function Wanted(s: Section, k: Kind): Section {
    match k
    case CSystem => CSection
    case CppSystem => CppSection
    case OtherSystem => OtherSysSection
    case LikelyMy => if Rank(s) <= 1 then MyHeader else OtherHeader
    case PossibleMy => if Rank(s) <= 1 then MyHeader else OtherHeader
    case Other => OtherHeader
  }

  predicate Accepted(s: Section, k: Kind) {
    Rank(s) <= Rank(Wanted(s, k))
  }

  function Next(s: Section, k: Kind): (r: Section)
    ensures Rank(s) <= Rank(r)
  {
    if Accepted(s, k) then Wanted(s, k) else s
  }

  /** Which of the headers are in order. */
  function Reports(s: Section, kinds: seq<Kind>): (r: seq<bool>)
    ensures |r| == |kinds|
    decreases |kinds|
  {
    if kinds == [] then [] else [Accepted(s, kinds[0])] + Reports(Next(s, kinds[0]), kinds[1..])
  }

  predicate AllAccepted(s: Section, kinds: seq<Kind>)
    decreases |kinds|
  {
    kinds == [] || (Accepted(s, kinds[0]) && AllAccepted(Next(s, kinds[0]), kinds[1..]))
  }

  predicate IsMy(k: Kind) {
    k == LikelyMy || k == PossibleMy
  }

  /** The kinds are my* C* C++* other-system* (my or other)*, cut at `a`, `b`, `c` and `d`. */
  predicate Blocks(kinds: seq<Kind>, a: nat, b: nat, c: nat, d: nat) {
    && a <= b <= c <= d <= |kinds|
    && (forall i :: 0 <= i < a ==> IsMy(kinds[i]))
    && (forall i :: a <= i < b ==> kinds[i] == CSystem)
    && (forall i :: b <= i < c ==> kinds[i] == CppSystem)
    && (forall i :: c <= i < d ==> kinds[i] == OtherSystem)
    && (forall i :: d <= i < |kinds| ==> IsMy(kinds[i]) || kinds[i] == Other)
  }

  /** The blocks that section `s` has left behind are empty. */
  predicate Passed(s: Section, a: nat, b: nat, c: nat, d: nat) {
    && (Rank(s) > 1 ==> a == 0) && (Rank(s) > 2 ==> b == 0)
    && (Rank(s) > 3 ==> c == 0) && (Rank(s) > 4 ==> d == 0)
  }

  lemma {:induction false} AcceptedHasBlocks(s: Section, kinds: seq<Kind>) returns (a: nat, b: nat, c: nat, d: nat)
    requires AllAccepted(s, kinds)
    ensures Blocks(kinds, a, b, c, d) && Passed(s, a, b, c, d)
    decreases |kinds|
  {
    a, b, c, d := 0, 0, 0, 0;
    if kinds != [] {
      var k, rest, t := kinds[0], kinds[1..], Next(s, kinds[0]);
      a, b, c, d := AcceptedHasBlocks(t, rest);
      assert forall i :: 1 <= i < |kinds| ==> kinds[i] == rest[i - 1];
      if t == MyHeader {
        a, b, c, d := a + 1, b + 1, c + 1, d + 1;
      } else if k == CSystem {
        b, c, d := b + 1, c + 1, d + 1;
      } else if k == CppSystem {
        c, d := c + 1, d + 1;
      } else if k == OtherSystem {
        d := d + 1;
      }
    }
  }

  lemma {:induction false} BlocksAreAccepted(s: Section, kinds: seq<Kind>, a: nat, b: nat, c: nat, d: nat)
    requires Blocks(kinds, a, b, c, d) && Passed(s, a, b, c, d)
    ensures AllAccepted(s, kinds)
    decreases |kinds|
  {
    if kinds != [] {
      var rest := kinds[1..];
      assert forall i :: 0 <= i < |rest| ==> rest[i] == kinds[i + 1];
      var a', b', c', d' := if a > 0 then a - 1 else 0, if b > 0 then b - 1 else 0,
                            if c > 0 then c - 1 else 0, if d > 0 then d - 1 else 0;
      BlocksAreAccepted(Next(s, kinds[0]), rest, a', b', c', d');
    }
  }

  ghost predicate InOrder(kinds: seq<Kind>) {
    exists a: nat, b: nat, c: nat, d: nat :: Blocks(kinds, a, b, c, d)
  }

  /** A run of headers since a reset is without error if and only if it has the
      shape my* C* C++* other-system* (my or other)*. */
  lemma NoErrorIffInOrder(kinds: seq<Kind>)
    ensures AllAccepted(Initial, kinds) <==> InOrder(kinds)
  {
    if AllAccepted(Initial, kinds) {
      var a, b, c, d := AcceptedHasBlocks(Initial, kinds);
    }
    if InOrder(kinds) {
      var a: nat, b: nat, c: nat, d: nat :| Blocks(kinds, a, b, c, d);
      BlocksAreAccepted(Initial, kinds, a, b, c, d);
    }
  }

  lemma {:induction false} AllAcceptedIsNoReport(s: Section, kinds: seq<Kind>)
    ensures AllAccepted(s, kinds) <==> false !in Reports(s, kinds)
    decreases |kinds|
  {
    if kinds != [] {
      AllAcceptedIsNoReport(Next(s, kinds[0]), kinds[1..]);
    }
  }

  lemma NoReportIffInOrder(kinds: seq<Kind>)
    ensures false !in Reports(Initial, kinds) <==> InOrder(kinds)
  {
    NoErrorIffInOrder(kinds);
    AllAcceptedIsNoReport(Initial, kinds);
  }

  function Deleted<T>(s: seq<T>, i: nat): seq<T>
    requires i < |s|
  {
    s[..i] + s[i + 1..]
  }

  lemma DeletedLater<T>(x: T, rest: seq<T>, i: nat)
    requires i < |rest|
    ensures Deleted([x] + rest, i + 1) == [x] + Deleted(rest, i)
  {
  }

  lemma ReportsCons(s: Section, k: Kind, rest: seq<Kind>)
    ensures Reports(s, [k] + rest) == [Accepted(s, k)] + Reports(Next(s, k), rest)
  {
    assert ([k] + rest)[1..] == rest;
  }

  /** Deleting a header that is reported leaves every other report as it was. */
  lemma {:induction false} DeletingReported(s: Section, kinds: seq<Kind>, i: nat)
    requires i < |kinds| && !Reports(s, kinds)[i]
    ensures Reports(s, Deleted(kinds, i)) == Deleted(Reports(s, kinds), i)
    decreases i
  {
    var k, rest := kinds[0], kinds[1..];
    assert kinds == [k] + rest;
    ReportsCons(s, k, rest);
    if i == 0 {
      assert Deleted(kinds, 0) == rest && Deleted(Reports(s, kinds), 0) == Reports(Next(s, k), rest);
    } else {
      DeletedLater(k, rest, i - 1);
      DeletingReported(Next(s, k), rest, i - 1);
      ReportsCons(s, k, Deleted(rest, i - 1));
      DeletedLater(Accepted(s, k), Reports(Next(s, k), rest), i - 1);
    }
  }

  class IncludeState {
    var section: Section
    var lastHeader: string

    constructor ()
      ensures section == Initial && lastHeader == ""
    {
      section, lastHeader := Initial, "";
    }

    /** Answers the header and the section it came after when it is out of order. */
    method CheckNextIncludeOrder(kind: Kind) returns (error: Option<(Kind, Section)>)
      modifies this
      ensures section == Next(old(section), kind)
      ensures error == if Accepted(old(section), kind) then None else Some((kind, old(section)))
      ensures lastHeader == if error.Some? || section != old(section) then "" else old(lastHeader)
    {
      var message := (kind, section);
      var lastSection := section;
      match kind {
        case CSystem =>
          if Rank(section) <= 2 {
            section := CSection;
          } else {
            lastHeader := "";
            return Some(message);
          }
        case CppSystem =>
          if Rank(section) <= 3 {
            section := CppSection;
          } else {
            lastHeader := "";
            return Some(message);
          }
        case OtherSystem =>
          if Rank(section) <= 4 {
            section := OtherSysSection;
          } else {
            lastHeader := "";
            return Some(message);
          }
        case LikelyMy => section := if Rank(section) <= 1 then MyHeader else OtherHeader;
        case PossibleMy => section := if Rank(section) <= 1 then MyHeader else OtherHeader;
        case Other => section := OtherHeader;
      }
      if lastSection != section {
        lastHeader := "";
      }
      return None;
    }

    /** Checks a run of headers; after a reset none is reported if and only if they
        are in order. */
    method CheckAll(kinds: seq<Kind>) returns (ok: seq<bool>)
      modifies this
      ensures ok == Reports(old(section), kinds)
      ensures old(section) == Initial ==> (false !in ok <==> InOrder(kinds))
    {
      ok := [];
      for i := 0 to |kinds|
        invariant Reports(old(section), kinds) == ok + Reports(section, kinds[i..])
      {
        assert kinds[i..][1..] == kinds[i + 1..];
        var error := CheckNextIncludeOrder(kinds[i]);
        ok := ok + [error.None?];
      }
      NoReportIffInOrder(kinds);
    }
  }
}
