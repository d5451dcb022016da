/**
 * The three tables of the coworking database (CLIENTES, SALAS and
 * RESERVACIONES) as rows, and the invariant the program keeps over them.
 */
module Records {

  import opened Calendar
  import opened Text

  /** A CLIENTES row: `clave`, `nombre`, `apellidos`. */
  datatype Client = Client(key: int, nombre: string, apellidos: string)

  /** A SALAS row: `clave_s`, `nombre_sala`, `cupo`. */
  datatype Room = Room(key: int, nombre: string, cupo: int)

  /** A RESERVACIONES row: `folio`, `clave` (the client), `clave_s` (the room),
      `fecha`, `turno` and `evento`. */
  datatype Reservation = Reservation(folio: int, client: int, room: int, fecha: Date, turno: string, evento: string)

  /** The shifts of a day, in the order the program lists them. */
  const Shifts: seq<string> := ["Matutino", "Vespertino", "Nocturno"]

  /** The range `random.randint(1000, 9999)` draws folios from. */
  const MinFolio := 1000
  const MaxFolio := 9999

  /** The values SQLite's 64-bit INTEGER holds. `sqlite3` raises
      `OverflowError` when it binds a Python `int` outside them. */
  const MinSqlInteger := -0x8000_0000_0000_0000
  const MaxSqlInteger := 0x7FFF_FFFF_FFFF_FFFF

  predicate SqlInteger(n: int)
  {
    MinSqlInteger <= n <= MaxSqlInteger
  }

  predicate HasClient(clients: seq<Client>, key: int)
  {
    exists i :: 0 <= i < |clients| && clients[i].key == key
  }

  predicate HasRoom(rooms: seq<Room>, key: int)
  {
    exists i :: 0 <= i < |rooms| && rooms[i].key == key
  }

  /** `SELECT 1 FROM RESERVACIONES WHERE folio = ?` finds a row. */
  predicate HasFolio(res: seq<Reservation>, f: int)
  {
    exists i :: 0 <= i < |res| && res[i].folio == f
  }

  /** Every stored date is a calendar date. */
  predicate DatesValid(res: seq<Reservation>)
  {
    forall i :: 0 <= i < |res| ==> IsValid(res[i].fecha)
  }

  /** At most one reservation per room, date and shift. */
  predicate NoDoubleBooking(res: seq<Reservation>)
  {
    forall i, j :: 0 <= i < j < |res| && res[i].room == res[j].room && res[i].fecha == res[j].fecha
      ==> res[i].turno != res[j].turno
  }

  predicate UniqueFolios(res: seq<Reservation>)
  {
    forall i, j :: 0 <= i < j < |res| ==> res[i].folio != res[j].folio
  }

  /** Text as the program admits it: not empty, and its own strip. */
  predicate IsEnteredText(s: string)
  {
    s != [] && Strip(s) == s
  }

  predicate ValidClients(clients: seq<Client>)
  {
    && (forall i, j :: 0 <= i < j < |clients| ==> clients[i].key != clients[j].key)
    && (forall i :: 0 <= i < |clients| ==> IsEnteredText(clients[i].nombre) && IsEnteredText(clients[i].apellidos))
  }

  predicate ValidRooms(rooms: seq<Room>)
  {
    && (forall i, j :: 0 <= i < j < |rooms| ==> rooms[i].key != rooms[j].key)
    && (forall i :: 0 <= i < |rooms| ==> IsEnteredText(rooms[i].nombre) && rooms[i].cupo > 0)
  }

  /** What every stored reservation satisfies on its own. */
  predicate ValidReservation(clients: seq<Client>, rooms: seq<Room>, r: Reservation)
  {
    && MinFolio <= r.folio <= MaxFolio
    && HasClient(clients, r.client)
    && HasRoom(rooms, r.room)
    && IsValid(r.fecha) && !IsSunday(r.fecha)
    && r.turno in Shifts
    && IsEnteredText(r.evento)
  }

  /** Every stored reservation is valid on its own (stated row by row from
      the last, so that one row at a time is looked at). */
  predicate AllValid(clients: seq<Client>, rooms: seq<Room>, res: seq<Reservation>)
  {
    res != [] ==> AllValid(clients, rooms, res[..|res| - 1]) && ValidReservation(clients, rooms, res[|res| - 1])
  }

  /** `AllValid` holds exactly when each row is valid. */
  lemma {:induction false} AllValidIff(clients: seq<Client>, rooms: seq<Room>, res: seq<Reservation>)
    ensures AllValid(clients, rooms, res) <==> forall i :: 0 <= i < |res| ==> ValidReservation(clients, rooms, res[i])
  {
    if res != [] {
      var init := res[..|res| - 1];
      AllValidIff(clients, rooms, init);
      assert forall i :: 0 <= i < |init| ==> init[i] == res[i];
    }
  }

  /** The invariant of the three tables. */
  predicate ValidTables(clients: seq<Client>, rooms: seq<Room>, res: seq<Reservation>)
  {
    && ValidClients(clients)
    && ValidRooms(rooms)
    && AllValid(clients, rooms, res)
    && DatesValid(res)
    && UniqueFolios(res)
    && NoDoubleBooking(res)
  }

  /** Adding rows to the client or room table keeps every reservation's references good. */
  lemma GrowKeepsRow(clients: seq<Client>, rooms: seq<Room>, more: seq<Client>, moreRooms: seq<Room>, r: Reservation)
    requires ValidReservation(clients, rooms, r)
    ensures ValidReservation(clients + more, rooms + moreRooms, r)
  {
    var i :| 0 <= i < |clients| && clients[i].key == r.client;
    assert (clients + more)[i] == clients[i];
    var j :| 0 <= j < |rooms| && rooms[j].key == r.room;
    assert (rooms + moreRooms)[j] == rooms[j];
  }

  lemma GrowKeepsRows(clients: seq<Client>, rooms: seq<Room>, more: seq<Client>, moreRooms: seq<Room>, res: seq<Reservation>)
    requires forall i :: 0 <= i < |res| ==> ValidReservation(clients, rooms, res[i])
    ensures forall i :: 0 <= i < |res| ==> ValidReservation(clients + more, rooms + moreRooms, res[i])
  {
    forall i | 0 <= i < |res|
      ensures ValidReservation(clients + more, rooms + moreRooms, res[i])
    {
      GrowKeepsRow(clients, rooms, more, moreRooms, res[i]);
    }
  }

  /** Registering a client under a key no client has keeps the invariant. */
  lemma AddClientKeepsTables(clients: seq<Client>, rooms: seq<Room>, res: seq<Reservation>, c: Client)
    requires ValidTables(clients, rooms, res)
    requires !HasClient(clients, c.key) && IsEnteredText(c.nombre) && IsEnteredText(c.apellidos)
    ensures ValidTables(clients + [c], rooms, res)
  {
    AllValidIff(clients, rooms, res);
    GrowKeepsRows(clients, rooms, [c], [], res);
    AllValidIff(clients + [c], rooms, res);
    assert rooms + [] == rooms;
    assert ValidClients(clients + [c]) by {
      var s := clients + [c];
      forall i, j | 0 <= i < j < |s| ensures s[i].key != s[j].key {
        if j == |clients| {
          assert s[i] == clients[i];
        } else {
          assert s[i] == clients[i] && s[j] == clients[j];
        }
      }
    }
  }

  /** Registering a room under a key no room has, with an admissible name and
      a positive capacity, keeps the invariant. */
  lemma AddRoomKeepsTables(clients: seq<Client>, rooms: seq<Room>, res: seq<Reservation>, room: Room)
    requires ValidTables(clients, rooms, res)
    requires !HasRoom(rooms, room.key) && IsEnteredText(room.nombre) && room.cupo > 0
    ensures ValidTables(clients, rooms + [room], res)
  {
    AllValidIff(clients, rooms, res);
    GrowKeepsRows(clients, rooms, [], [room], res);
    AllValidIff(clients, rooms + [room], res);
    assert clients + [] == clients;
    assert ValidRooms(rooms + [room]) by {
      var s := rooms + [room];
      forall i, j | 0 <= i < j < |s| ensures s[i].key != s[j].key {
        if j == |rooms| {
          assert s[i] == rooms[i];
        } else {
          assert s[i] == rooms[i] && s[j] == rooms[j];
        }
      }
    }
  }
}
