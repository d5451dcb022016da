/**
 * The table side of `editar_evento`: the rows listed for a date range and the
 * `UPDATE` of one row's event name.
 */
module Editing {

  import opened Wrappers
  import opened Calendar
  import opened Records

  /** Text order as SQLite compares TEXT values (byte by byte, a prefix
      first). */
  predicate TextLe(a: string, b: string)
    ensures a <= b ==> TextLe(a, b)
  {
    a == [] || (b != [] && (a[0] < b[0] || (a[0] == b[0] && TextLe(a[1..], b[1..]))))
  }

  /** Any two texts compare, and only equal texts compare both ways. */
  lemma {:induction false} TextLeTotal(a: string, b: string)
    ensures TextLe(a, b) || TextLe(b, a)
    ensures TextLe(a, b) && TextLe(b, a) ==> a == b
  {
    if a != [] && b != [] && a[0] == b[0] {
      TextLeTotal(a[1..], b[1..]);
      assert a == [a[0]] + a[1..] && b == [b[0]] + b[1..];
    }
  }

  lemma {:induction false} TextLeTransitive(a: string, b: string, c: string)
    requires TextLe(a, b) && TextLe(b, c)
    ensures TextLe(a, c)
  {
    if a != [] && a[0] == b[0] && b[0] == c[0] {
      TextLeTransitive(a[1..], b[1..], c[1..]);
    }
  }

  /** `fecha BETWEEN ? AND ?`: the stored "mm-dd-yyyy" text against the
      bounds as the user typed them (stripped). Bounds out of text order
      take in nothing. */
  predicate InTextRange(lo: string, hi: string, d: Date)
    requires IsValid(d)
    ensures InTextRange(lo, hi, d) ==> TextLe(lo, hi)
  {
    var f := Format(d);
    if TextLe(lo, f) && TextLe(f, hi) then
      TextLeTransitive(lo, f, hi);
      true
    else
      false
  }

  /** The folios the range query lists, in table order. */
  function ListedFolios(res: seq<Reservation>, lo: string, hi: string): (r: seq<int>)
    requires DatesValid(res)
    ensures |r| <= |res|
    ensures !TextLe(lo, hi) ==> r == []
  {
    if res == [] then []
    else
      var last := res[|res| - 1];
      ListedFolios(res[..|res| - 1], lo, hi) + (if InTextRange(lo, hi, last.fecha) then [last.folio] else [])
  }

  /** A folio is listed exactly when some row in the text range carries it. */
  lemma {:induction false} ListedFoliosMembership(res: seq<Reservation>, lo: string, hi: string)
    requires DatesValid(res)
    ensures forall i :: 0 <= i < |res| && InTextRange(lo, hi, res[i].fecha) ==> res[i].folio in ListedFolios(res, lo, hi)
    ensures forall f :: f in ListedFolios(res, lo, hi) ==>
              exists i :: 0 <= i < |res| && res[i].folio == f && InTextRange(lo, hi, res[i].fecha)
  {
    if res != [] {
      var n := |res| - 1;
      var init := res[..n];
      assert forall i :: 0 <= i < |init| ==> init[i] == res[i];
      ListedFoliosMembership(init, lo, hi);
      var listed, earlier := ListedFolios(res, lo, hi), ListedFolios(init, lo, hi);
      var lastIn := InTextRange(lo, hi, res[n].fecha);
      assert listed == earlier + (if lastIn then [res[n].folio] else []);
      forall i | 0 <= i < |res| && InTextRange(lo, hi, res[i].fecha)
        ensures res[i].folio in listed
      {
        if i < n {
          assert res[i].folio in earlier;
        }
      }
      forall f | f in listed
        ensures exists i :: 0 <= i < |res| && res[i].folio == f && InTextRange(lo, hi, res[i].fecha)
      {
        if f in earlier {
          var i :| 0 <= i < |init| && init[i].folio == f && InTextRange(lo, hi, init[i].fecha);
          assert res[i] == init[i];
        } else {
          assert res[n].folio == f && lastIn;
        }
      }
    }
  }

  /** The range is compared as text, not as dates: 01-15-2026 falls between
      01-01-2025 and 02-01-2025 although it is a year later. */
  lemma TextRangeIsNotChronological()
    ensures Strptime("01-01-2025") == Some(Date(1, 1, 2025)) && Strptime("02-01-2025") == Some(Date(2, 1, 2025))
    ensures IsValid(Date(1, 15, 2026)) && InTextRange("01-01-2025", "02-01-2025", Date(1, 15, 2026))
    ensures Ordinal(Date(1, 15, 2026)) > Ordinal(Date(2, 1, 2025))
  {
    assert Format(Date(1, 15, 2026)) == "01-15-2026";
  }

  /** Bounds typed with one-digit fields pass the format check but compare as
      typed: between 1-1-2025 and 1-31-2025, the booking of 01-15-2025 is not
      listed, because "1-1-2025" sorts after "01-15-2025". */
  lemma OneDigitBoundsExample()
    ensures Strptime("1-1-2025") == Some(Date(1, 1, 2025)) && Strptime("1-31-2025") == Some(Date(1, 31, 2025))
    ensures IsValid(Date(1, 15, 2025)) && !InTextRange("1-1-2025", "1-31-2025", Date(1, 15, 2025))
  {
    assert Format(Date(1, 15, 2025)) == "01-15-2025";
  }

  /** `UPDATE RESERVACIONES SET evento = ? WHERE folio = ?`. */
  function Rename(res: seq<Reservation>, folio: int, name: string): (r: seq<Reservation>)
    ensures |r| == |res|
    ensures forall i :: 0 <= i < |res| ==> r[i].(evento := res[i].evento) == res[i]
    ensures forall i :: 0 <= i < |res| ==> r[i].evento == if res[i].folio == folio then name else res[i].evento
  {
    if res == [] then []
    else [if res[0].folio == folio then res[0].(evento := name) else res[0]] + Rename(res[1..], folio, name)
  }

  /** With unique folios the update touches the one row of that folio and no other. */
  lemma RenameTouchesOneRow(res: seq<Reservation>, i: int, name: string)
    requires UniqueFolios(res) && 0 <= i < |res|
    ensures Rename(res, res[i].folio, name)[i] == res[i].(evento := name)
    ensures forall j :: 0 <= j < |res| && j != i ==> Rename(res, res[i].folio, name)[j] == res[j]
  {
    var r := Rename(res, res[i].folio, name);
    forall j | 0 <= j < |res| && j != i
      ensures r[j] == res[j]
    {
      assert res[j].folio != res[i].folio;
    }
  }

  /** Renaming with admissible text keeps the table invariant. */
  lemma RenameKeepsTables(clients: seq<Client>, rooms: seq<Room>, res: seq<Reservation>, folio: int, name: string)
    requires ValidTables(clients, rooms, res) && IsEnteredText(name)
    ensures ValidTables(clients, rooms, Rename(res, folio, name))
  {
    RenameKeepsKeys(res, folio, name);
    AllValidIff(clients, rooms, res);
    RenameKeepsRows(clients, rooms, res, folio, name);
    AllValidIff(clients, rooms, Rename(res, folio, name));
  }

  lemma RenameKeepsKeys(res: seq<Reservation>, folio: int, name: string)
    requires UniqueFolios(res) && NoDoubleBooking(res)
    ensures UniqueFolios(Rename(res, folio, name)) && NoDoubleBooking(Rename(res, folio, name))
  {
    var r := Rename(res, folio, name);
    assert forall i :: 0 <= i < |res| ==>
      (r[i].folio == res[i].folio && r[i].room == res[i].room
       && r[i].fecha == res[i].fecha && r[i].turno == res[i].turno);
  }

  lemma RenameKeepsRows(clients: seq<Client>, rooms: seq<Room>, res: seq<Reservation>, folio: int, name: string)
    requires forall i :: 0 <= i < |res| ==> ValidReservation(clients, rooms, res[i])
    requires IsEnteredText(name)
    ensures forall i :: 0 <= i < |res| ==> ValidReservation(clients, rooms, Rename(res, folio, name)[i])
  {
    var r := Rename(res, folio, name);
    forall i | 0 <= i < |r|
      ensures ValidReservation(clients, rooms, r[i])
    {
      EventChangeKeepsRow(clients, rooms, res[i], r[i]);
    }
  }

  lemma EventChangeKeepsRow(clients: seq<Client>, rooms: seq<Room>, a: Reservation, b: Reservation)
    requires ValidReservation(clients, rooms, a)
    requires b.(evento := a.evento) == a && IsEnteredText(b.evento)
    ensures ValidReservation(clients, rooms, b)
  {
    assert b.fecha == a.fecha && b.client == a.client && b.room == a.room;
  }
}
