/** Login sessions (internal/store/user_store.go): a session lives for one
    week, an unknown token and an expired one are told apart, and an expired
    session is deleted when it is looked up. The clock and the random bytes
    of a new token are parameters; times are seconds. */
module UserStore {
  import opened Results

  /** `7 * 24 * time.Hour`, in seconds. */
  const SessionLifetime: int := 7 * 24 * 60 * 60

  const InvalidToken: string := "invalid session token"
  const SessionExpired: string := "session expired"
  /** What `QueryRow(...).Scan` reports when no user has the id. */
  const NoRows: string := "sql: no rows in result set"
  /** The sessions table's own constraint error; the schema is not part of this model. */
  const InsertFailed: string := "insert failed"

  datatype User = User(id: int, username: string, role: string)

  datatype Session = Session(userId: int, expiry: int)

  /** Users by id and sessions by token. */
  datatype Db = Db(users: map<int, User>, sessions: map<string, Session>)

  type Byte = b: int | 0 <= b < 256

  predicate IsHexDigit(c: char) { '0' <= c <= '9' || 'a' <= c <= 'f' }

  function HexDigit(v: int): (c: char)
    requires 0 <= v < 16
    ensures IsHexDigit(c)
  {
    if v < 10 then ('0' as int + v) as char else ('a' as int + v - 10) as char
  }

  /** `hex.EncodeToString`: two lower-case hex digits per byte, high nibble first. */
  function HexEncode(bytes: seq<Byte>): (s: string)
    ensures |s| == 2 * |bytes|
    ensures forall i :: 0 <= i < |s| ==> IsHexDigit(s[i])
  {
    if |bytes| == 0 then ""
    else [HexDigit(bytes[0] / 16), HexDigit(bytes[0] % 16)] + HexEncode(bytes[1..])
  }

  /** The value of a hex digit. */
  function HexValue(c: char): (v: int)
    requires IsHexDigit(c)
    ensures 0 <= v < 16 && HexDigit(v) == c
  {
    if '0' <= c <= '9' then c as int - '0' as int else c as int - 'a' as int + 10
  }

  /** Reads back what `HexEncode` wrote. */
  function HexDecode(s: string): (bytes: seq<Byte>)
    requires |s| % 2 == 0
    requires forall i :: 0 <= i < |s| ==> IsHexDigit(s[i])
    ensures |bytes| * 2 == |s|
  {
    if |s| == 0 then []
    else [HexValue(s[0]) * 16 + HexValue(s[1])] + HexDecode(s[2..])
  }

  lemma HexDigitInjective(v: int)
    requires 0 <= v < 16
    ensures HexValue(HexDigit(v)) == v
  {
  }

  lemma {:induction false} HexRoundTrip(bytes: seq<Byte>)
    ensures HexDecode(HexEncode(bytes)) == bytes
    decreases |bytes|
  {
    if |bytes| > 0 {
      var s := HexEncode(bytes);
      assert s[2..] == HexEncode(bytes[1..]);
      HexRoundTrip(bytes[1..]);
      HexDigitInjective(bytes[0] / 16);
      HexDigitInjective(bytes[0] % 16);
    }
  }

  /** `CreateSession(userID)` with 32 random bytes `random` and the clock at
      `now`: the token is their hex form, valid until one week from now. */
  function CreateSession(db: Db, userId: int, random: seq<Byte>, now: int): (r: Result<(string, Db)>)
    requires |random| == 32
    ensures r.Ok? <==> HexEncode(random) !in db.sessions
    ensures r.Ok? ==> var (token, db') := r.value;
      token == HexEncode(random) && |token| == 64 && HexDecode(token) == random
      && db'.sessions == db.sessions[token := Session(userId, now + SessionLifetime)]
      && db'.users == db.users
  {
    var token := HexEncode(random);
    HexRoundTrip(random);
    if token in db.sessions then Err(InsertFailed)
    else Ok((token, db.(sessions := db.sessions[token := Session(userId, now + SessionLifetime)])))
  }

  /** `DeleteSession`: no error when the token is unknown. */
  function DeleteSession(db: Db, token: string): (r: Db)
    ensures token !in r.sessions
    ensures forall t :: t in r.sessions <==> t in db.sessions && t != token
    ensures forall t :: t in r.sessions ==> r.sessions[t] == db.sessions[t]
    ensures r.users == db.users
  {
    db.(sessions := db.sessions - {token})
  }

  /** `GetUserFromSession` at time `now`: the user and the database after the
      call (an expired session is removed). A session is still valid at the
      exact second it expires. */
  function GetUserFromSession(db: Db, token: string, now: int): (r: (Result<User>, Db))
    ensures token !in db.sessions ==> r == (Err(InvalidToken), db)
    ensures token in db.sessions && now > db.sessions[token].expiry ==>
      r == (Err(SessionExpired), DeleteSession(db, token))
    ensures token in db.sessions && now <= db.sessions[token].expiry ==>
      r.1 == db
      && (db.sessions[token].userId in db.users ==> r.0 == Ok(db.users[db.sessions[token].userId]))
      && (db.sessions[token].userId !in db.users ==> r.0 == Err(NoRows))
  {
    if token !in db.sessions then (Err(InvalidToken), db)
    else
      var s := db.sessions[token];
      if now > s.expiry then (Err(SessionExpired), DeleteSession(db, token))
      else if s.userId in db.users then (Ok(db.users[s.userId]), db)
      else (Err(NoRows), db)
  }

  /** A new session logs its user in for exactly one week, and then expires. */
  lemma SessionLastsOneWeek(db: Db, userId: int, random: seq<Byte>, now: int, later: int)
    requires |random| == 32 && userId in db.users
    requires CreateSession(db, userId, random, now).Ok?
    ensures var (token, db') := CreateSession(db, userId, random, now).value;
      (now <= later <= now + SessionLifetime ==> GetUserFromSession(db', token, later).0 == Ok(db.users[userId]))
      && (later > now + SessionLifetime ==> GetUserFromSession(db', token, later).0 == Err(SessionExpired))
  {
  }

  /** Once expired, a session is gone: the next lookup says the token is invalid. */
  lemma ExpiredThenInvalid(db: Db, token: string, now: int, later: int)
    requires token in db.sessions && now > db.sessions[token].expiry
    ensures GetUserFromSession(GetUserFromSession(db, token, now).1, token, later).0 == Err(InvalidToken)
  {
  }

  /** After logout the token no longer works, and other sessions are untouched. */
  lemma LogoutInvalidates(db: Db, token: string, other: string, now: int)
    requires other != token
    ensures GetUserFromSession(DeleteSession(db, token), token, now).0 == Err(InvalidToken)
    ensures GetUserFromSession(DeleteSession(db, token), other, now).0 == GetUserFromSession(db, other, now).0
  {
  }
}
