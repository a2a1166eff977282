/**
 * The attendance service's two tables and its three request handlers:
 * `admin_register` appends a users row, `presensi_kamera` and
 * `presensi_upload` match a query face against every users row and append an
 * absensi event when the match is accepted.
 *
 * Everything the handlers hand to libraries is a parameter here: the face
 * embedding extractor (`represent`, which also stands for base64 and image
 * decoding), the similarity of two embeddings (`similarity`, cosine similarity
 * in the service) and the database clock (`now`, SQL `NOW()`).
 */
module Presensi {
  import opened Wrappers
  import opened Matching
  import PhotoName
  import DataUrl

  /** A face embedding (ArcFace produces a vector of floats). */
  type Embedding = seq<real>

  /** The bytes of an uploaded photo. */
  type Photo = seq<bv8>

  /** A row of the `users` table. */
  datatype UserRow = UserRow(id: nat, name: string, photo: string, embedding: Embedding)

  /** A row of the `absensi` table: whose attendance, and when. */
  datatype AttendanceEvent = AttendanceEvent(userId: nat, time: int)

  /** The page `admin_register` answers with. */
  datatype RegisterResponse =
    | Registered(name: string, photo: string)  // "Registrasi Berhasil!" with the name and the stored photo
    | DetectionError(detail: string)           // "Error deteksi wajah!" with the exception text

  /** The JSON object a check-in handler answers with. */
  datatype Response =
    | Present(name: string, score: real)
    | FaceNotDetected
    | FaceNotRecognised
    | PhotoMissing
    | Failed(detail: string)
  {
    /** The `status` field: true exactly for a recorded attendance, whose message starts with the success text. */
    function Status(): (ok: bool)
      ensures ok <==> Present?
      ensures ok <==> StartsWith(Message(), SuccessPrefix)
    {
      Present?
    }

    /**
     * The `message` field (the `score` field is present only on `Present`). The
     * success text starts no other message, and the name or the exception text
     * can be read back after its prefix.
     */
    function Message(): (m: string)
      ensures Present? <==> StartsWith(m, SuccessPrefix)
      ensures Present? ==> m[|SuccessPrefix|..] == name
      ensures Failed? ==> StartsWith(m, ErrorPrefix) && m[|ErrorPrefix|..] == detail
    {
      match this
      case Present(name, _) =>
        assert (SuccessPrefix + name)[..|SuccessPrefix|] == SuccessPrefix;
        SuccessPrefix + name
      case FaceNotDetected =>
        FirstCharDiffers("Wajah tidak terdeteksi!", SuccessPrefix);
        "Wajah tidak terdeteksi!"
      case FaceNotRecognised =>
        FirstCharDiffers("Wajah tidak dikenali!", SuccessPrefix);
        "Wajah tidak dikenali!"
      case PhotoMissing =>
        FirstCharDiffers("Foto tidak ditemukan!", SuccessPrefix);
        "Foto tidak ditemukan!"
      case Failed(detail) =>
        FirstCharDiffers(ErrorPrefix + detail, SuccessPrefix);
        assert (ErrorPrefix + detail)[..|ErrorPrefix|] == ErrorPrefix;
        ErrorPrefix + detail
    }
  }

  /** The message of a successful check-in, before the user's name. */
  const SuccessPrefix: string := "Presensi Berhasil: "

  /** The message of a caught exception, before the exception's text. */
  const ErrorPrefix: string := "Error: "

  /** `s` begins with `prefix`. */
  predicate StartsWith(s: string, prefix: string)
  {
    |prefix| <= |s| && s[..|prefix|] == prefix
  }

  /** Strings that differ in their first character do not start one another. */
  lemma FirstCharDiffers(s: string, prefix: string)
    requires |s| > 0 && |prefix| > 0 && s[0] != prefix[0]
    ensures !StartsWith(s, prefix)
  {
    if |prefix| <= |s| {
      assert s[..|prefix|][0] == s[0];
    }
  }

  /**
   * The text of the exception a missing `image_data` form field raises: the form
   * is a werkzeug MultiDict, whose missing key raises BadRequestKeyError, and the
   * `str()` of that exception is its HTTP 400 description.
   */
  const MissingImageDataText: string :=
    "400 Bad Request: The browser (or proxy) sent a request that this server could not understand."

  /** The text of the IndexError Python raises for `[1]` or `[0]` on a list that is too short. */
  const IndexErrorText: string := "list index out of range"

  /** The rows the scan sees for one query: every user's id and name with its similarity to the query. */
  function ScoreRows(users: seq<UserRow>, query: Embedding, similarity: (Embedding, Embedding) -> real)
    : (rows: seq<ScoredRow>)
    ensures |rows| == |users|
    ensures forall i {:trigger rows[i]} :: 0 <= i < |users| ==>
              rows[i] == ScoredRow(users[i].id, users[i].name, similarity(query, users[i].embedding))
  {
    if users == [] then []
    else
      [ScoredRow(users[0].id, users[0].name, similarity(query, users[0].embedding))] +
      ScoreRows(users[1..], query, similarity)
  }

  /** The answer to a decision: success with the user's name and score, or "not recognised". */
  function Answer(d: Decision): (r: Response)
    ensures r.Status() <==> d.Accept?
    ensures d.Accept? ==> r.name == d.user.name && r.score == d.score
    ensures d.Reject? ==> r.Message() == "Wajah tidak dikenali!"
  {
    match d
    case Accept(user, score) => Present(user.name, score)
    case Reject => FaceNotRecognised
  }

  /** The absensi rows a decision inserts: one row for the accepted user, none on a reject. */
  function Logged(d: Decision, now: int): (events: seq<AttendanceEvent>)
    ensures |events| == if d.Accept? then 1 else 0
    ensures forall k :: 0 <= k < |events| ==> events[k].userId == d.user.id && events[k].time == now
  {
    match d
    case Accept(user, _) => [AttendanceEvent(user.id, now)]
    case Reject => []
  }

  /**
   * An accepted check-in names a stored user: the recorded id and the reported
   * name belong to one users row, and the reported score is that row's similarity
   * to the query.
   */
  lemma AcceptedUserIsStored(users: seq<UserRow>, query: Embedding, similarity: (Embedding, Embedding) -> real)
    requires Decide(ScoreRows(users, query, similarity)).Accept?
    ensures var d := Decide(ScoreRows(users, query, similarity));
            exists i :: 0 <= i < |users| && users[i].id == d.user.id && users[i].name == d.user.name &&
                        similarity(query, users[i].embedding) == d.score
  {
    var rows := ScoreRows(users, query, similarity);
    var d := Decide(rows);
    var i :| 0 <= i < |rows| && rows[i] == d.user;
    assert users[i].id == d.user.id;
  }

  /** The events a check-in logs name existing users, so the log keeps naming existing users. */
  lemma EventsKnownAfterMatch(users: seq<UserRow>, events: seq<AttendanceEvent>, query: Embedding,
                              similarity: (Embedding, Embedding) -> real, now: int)
    requires EventsKnown(users, events)
    ensures EventsKnown(users, events + Logged(Decide(ScoreRows(users, query, similarity)), now))
  {
    var d := Decide(ScoreRows(users, query, similarity));
    if d.Accept? {
      AcceptedUserIsStored(users, query, similarity);
      assert IsUserId(users, d.user.id);
      assert Logged(d, now) == [AttendanceEvent(d.user.id, now)];
      EventsKnownAfterCheckIn(users, events, AttendanceEvent(d.user.id, now));
    } else {
      assert events + Logged(d, now) == events;
    }
  }

  /** Some users row has this id. */
  ghost predicate IsUserId(users: seq<UserRow>, id: nat)
  {
    exists i :: 0 <= i < |users| && users[i].id == id
  }

  /** Every attendance event names an existing user. */
  ghost predicate EventsKnown(users: seq<UserRow>, events: seq<AttendanceEvent>)
  {
    forall k :: 0 <= k < |events| ==> IsUserId(users, events[k].userId)
  }

  /** Inserting a user keeps every event's user in the table. */
  lemma EventsKnownAfterRegister(users: seq<UserRow>, row: UserRow, events: seq<AttendanceEvent>)
    requires EventsKnown(users, events)
    ensures EventsKnown(users + [row], events)
  {
    forall k | 0 <= k < |events| ensures IsUserId(users + [row], events[k].userId) {
      var i :| 0 <= i < |users| && users[i].id == events[k].userId;
      assert (users + [row])[i] == users[i];
    }
  }

  /** Recording an event for an existing user keeps every event's user in the table. */
  lemma EventsKnownAfterCheckIn(users: seq<UserRow>, events: seq<AttendanceEvent>, event: AttendanceEvent)
    requires EventsKnown(users, events) && IsUserId(users, event.userId)
    ensures EventsKnown(users, events + [event])
  {
    forall k | 0 <= k < |events| + 1 ensures IsUserId(users, (events + [event])[k].userId) {
      if k < |events| {
        assert (events + [event])[k] == events[k];
      }
    }
  }

  /** The service's database: the `users` and `absensi` tables. */
  class Database {
    var users: seq<UserRow>
    var absensi: seq<AttendanceEvent>
    /** The users table's AUTO_INCREMENT counter: the id the next inserted row gets. */
    var nextId: nat

    /**
     * Ids are issued in increasing order and every attendance event names an
     * existing user; together these make each event name exactly one users row
     * (`EventUser`).
     */
    ghost predicate Valid()
      reads this
    {
      (forall i :: 0 <= i < |users| ==> users[i].id < nextId) &&
      (forall i, j :: 0 <= i < j < |users| ==> users[i].id < users[j].id) &&
      EventsKnown(users, absensi)
    }

    /** The one users row the `k`-th attendance event names. */
    ghost function EventUser(k: nat): (i: nat)
      requires Valid() && k < |absensi|
      reads this
      ensures i < |users| && users[i].id == absensi[k].userId
      ensures forall j :: 0 <= j < |users| && users[j].id == absensi[k].userId ==> j == i
    {
      var i :| 0 <= i < |users| && users[i].id == absensi[k].userId;
      assert forall j :: 0 <= j < |users| && j != i ==> users[j].id != users[i].id by {
        forall j | 0 <= j < |users| && j != i ensures users[j].id != users[i].id {
          if j < i { assert users[j].id < users[i].id; } else { assert users[i].id < users[j].id; }
        }
      }
      i
    }

    constructor ()
      ensures Valid() && users == [] && absensi == [] && nextId == 1
    {
      users, absensi, nextId := [], [], 1;
    }

    /**
     * `admin_register`: extract the embedding of the uploaded photo and, if that
     * succeeds, insert a users row. Existing rows are neither consulted nor changed.
     */
    method Register(name: string, extracted: Result<Embedding, string>) returns (resp: RegisterResponse)
      requires Valid()
      modifies this
      ensures Valid() && absensi == old(absensi)
      ensures extracted.Failure? ==>
                resp == DetectionError(extracted.error) && users == old(users) && nextId == old(nextId)
      ensures extracted.Success? ==>
                var row := UserRow(old(nextId), name, PhotoName.PhotoFilename(name), extracted.value);
                users == old(users) + [row] && nextId == old(nextId) + 1 &&
                resp == Registered(name, row.photo)
    {
      var filename := PhotoName.PhotoFilename(name);
      match extracted
      case Failure(e) =>
        resp := DetectionError(e);
      case Success(embedding) =>
        EventsKnownAfterRegister(users, UserRow(nextId, name, filename, embedding), absensi);
        users := users + [UserRow(nextId, name, filename, embedding)];
        nextId := nextId + 1;
        resp := Registered(name, filename);
    }

    /**
     * The part both check-in handlers share once they hold a query embedding:
     * scan every users row, then either answer "not recognised" or insert one
     * absensi row for the best user.
     */
    method RecordMatch(query: Embedding, similarity: (Embedding, Embedding) -> real, now: int)
      returns (resp: Response)
      requires Valid()
      modifies this`absensi
      ensures Valid() && users == old(users)
      ensures var d := Decide(ScoreRows(users, query, similarity));
              resp == Answer(d) && absensi == old(absensi) + Logged(d, now)
    {
      var rows := ScoreRows(users, query, similarity);
      var bestUser, bestScore := FindBest(rows);
      if bestScore < Threshold {
        assert Decide(rows) == Reject;
        resp := FaceNotRecognised;
      } else {
        // best_user cannot be None here: the threshold is above the seed, so some row replaced it
        var best := bestUser.value;
        assert Decide(rows) == Accept(best, bestScore);
        EventsKnownAfterMatch(users, absensi, query, similarity, now);
        absensi := absensi + [AttendanceEvent(best.id, now)];
        resp := Present(best.name, bestScore);
      }
    }

    /**
     * `presensi_kamera`: read the `image_data` form field, take the second
     * comma-separated field of the data URL, extract the faces in it and match
     * the first one.
     */
    method CheckInCamera(form: Option<string>, represent: string -> Result<seq<Embedding>, string>,
                         similarity: (Embedding, Embedding) -> real, now: int)
      returns (resp: Response)
      requires Valid()
      modifies this`absensi
      ensures Valid() && users == old(users)
      ensures form.None? ==> resp == Failed(MissingImageDataText) && absensi == old(absensi)
      ensures form.Some? && DataUrl.Payload(form.value).None? ==>
                resp == Failed(IndexErrorText) && absensi == old(absensi)
      ensures form.Some? && DataUrl.Payload(form.value).Some? ==>
                match represent(DataUrl.Payload(form.value).value)
                case Failure(e) => resp == Failed(e) && absensi == old(absensi)
                case Success(faces) =>
                  if faces == [] then resp == FaceNotDetected && absensi == old(absensi)
                  else
                    var d := Decide(ScoreRows(users, faces[0], similarity));
                    resp == Answer(d) && absensi == old(absensi) + Logged(d, now)
    {
      if form.None? {
        resp := Failed(MissingImageDataText);
        return;
      }
      var fields := DataUrl.Split(form.value);
      if |fields| < 2 {
        resp := Failed(IndexErrorText);
        return;
      }
      var faces := represent(fields[1]);
      if faces.Failure? {
        resp := Failed(faces.error);
        return;
      }
      if |faces.value| == 0 {
        resp := FaceNotDetected;
        return;
      }
      resp := RecordMatch(faces.value[0], similarity, now);
    }

    /**
     * `presensi_upload`: answer "photo missing" when no file was sent, otherwise
     * extract the faces of the photo and match the first one.
     */
    method CheckInUpload(photo: Option<Photo>, represent: Photo -> Result<seq<Embedding>, string>,
                         similarity: (Embedding, Embedding) -> real, now: int)
      returns (resp: Response)
      requires Valid()
      modifies this`absensi
      ensures Valid() && users == old(users)
      ensures photo.None? ==> resp == PhotoMissing && absensi == old(absensi)
      ensures photo.Some? ==>
                match represent(photo.value)
                case Failure(e) => resp == Failed(e) && absensi == old(absensi)
                case Success(faces) =>
                  if faces == [] then resp == Failed(IndexErrorText) && absensi == old(absensi)
                  else
                    var d := Decide(ScoreRows(users, faces[0], similarity));
                    resp == Answer(d) && absensi == old(absensi) + Logged(d, now)
    {
      if photo.None? {
        resp := PhotoMissing;
        return;
      }
      var faces := represent(photo.value);
      if faces.Failure? {
        resp := Failed(faces.error);
        return;
      }
      if |faces.value| == 0 {
        resp := Failed(IndexErrorText);
        return;
      }
      resp := RecordMatch(faces.value[0], similarity, now);
    }
  }

  /**
   * Enrolling the same name twice gives two users rows with that name and the
   * same photo file, told apart only by their ids.
   */
  method RegisterSameNameTwice(name: string, first: Embedding, second: Embedding)
    returns (a: UserRow, b: UserRow)
    ensures a.name == name && b.name == name && a.photo == b.photo && a.id != b.id
    ensures a.embedding == first && b.embedding == second
  {
    var db := new Database();
    var _ := db.Register(name, Success(first));
    var _ := db.Register(name, Success(second));
    a, b := db.users[0], db.users[1];
  }
}
