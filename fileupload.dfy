/** The `FileUpload` model of fileupload/models.py: the processing status of
    an upload, the storage path `upload_to` gives an uploaded file, and the
    extension guard and message truncation of `save`. */
module FileUploads {
  import opened Wrappers
  import opened Calendar
  import opened Text

  /** `Status`, stored as its text value in a column of at most 20
      characters. */
  datatype Status = Pending | InProgress | Completed | Failed

  /** The stored text value of a status. */
  function StatusValue(s: Status): string {
    match s
    case Pending => "PENDING"
    case InProgress => "IN_PROGRESS"
    case Completed => "COMPLETED"
    case Failed => "FAILED"
  }

  /** Every value fits the column, and no two statuses share a value. */
  lemma StatusValues(a: Status, b: Status)
    ensures |StatusValue(a)| <= 20
    ensures StatusValue(a) == StatusValue(b) ==> a == b
  {
    assert StatusValue(a)[0] == StatusValue(b)[0] ==> (a == b || {a, b} == {Completed, Pending}
      || {a, b} == {InProgress, Pending} || {a, b} == {InProgress, Completed});
  }

  datatype UploadError =
    | InvalidFilename(filename: string)
    | InvalidExtension
    | BadStoredName

  /** The clock reading `datetime.now()` that `upload_to` formats. */
  datatype Clock = Clock(date: Date, hour: int, minute: int, second: int)

  type Time = t: Clock | 0 <= t.hour < 24 && 0 <= t.minute < 60 && 0 <= t.second < 60
    witness Clock(YMD(2000, 1, 1), 0, 0, 0)

  /** `now.strftime("%Y%m%d%H%M%S")`. */
  function Stamp(t: Time): (r: string)
    ensures |r| == 14 && IsDigits(r)
  {
    Fixed(t.date.year, 4) + Fixed(t.date.month, 2) + Fixed(t.date.day, 2) +
    Fixed(t.hour, 2) + Fixed(t.minute, 2) + Fixed(t.second, 2)
  }

  /** The directory of a user's uploads, `uploads/user-{id}`. */
  function UserDir(user: nat): string {
    "uploads/user-" + Decimal(user)
  }

  /** `upload_to(instance, filename)` for an instance of the given user at
      the given time: a file name with exactly one "." is stored as
      `{stem}_{stamp}.{extension}` in the user's directory; any other name
      is refused. */
  function UploadTo(user: nat, filename: string, now: Time): (r: Result<string, UploadError>)
    ensures r.Err? <==> Count(filename, '.') != 1
    ensures r.Err? ==> r.error == InvalidFilename(filename)
    ensures r.Ok? ==> UserDir(user) + "/" <= r.value
  {
    var parts := Split(filename, '.');
    if |parts| != 2 then Err(InvalidFilename(filename))
    else Ok(UserDir(user) + "/" + parts[0] + "_" + Stamp(now) + "." + parts[1])
  }

  /** A name of one "." is stored under its stem, the stamp and its
      extension. */
  lemma UploadToOneDot(user: nat, n: string, e: string, now: Time)
    requires '.' !in n && '.' !in e
    ensures UploadTo(user, n + "." + e, now) == Ok(UserDir(user) + "/" + n + "_" + Stamp(now) + "." + e)
  {
    SplitConcat(n, e, '.');
    SplitNone(n, '.');
    SplitNone(e, '.');
    assert Split(n + "." + e, '.') == [n, e];
  }

  /** The extension check of `save`: an empty name, or one ending in
      ".csv". */
  predicate ExtensionOk(name: string) {
    name == [] || EndsWith(name, ".csv")
  }

  /** The longest message the column holds. */
  const MaxMessage := 500

  /** A message too long for its column becomes its first 497 characters
      followed by "...". */
  function Truncate(m: string): (r: string)
    ensures |r| <= MaxMessage
    ensures |m| <= MaxMessage ==> r == m
    ensures |m| > MaxMessage ==> |r| == MaxMessage && r == m[..497] + "..."
  {
    if |m| > MaxMessage then m[..497] + "..." else m
  }

  /** Truncating twice truncates once. */
  lemma TruncateIdempotent(m: string)
    ensures Truncate(Truncate(m)) == Truncate(m)
  {
  }

  /** A ".csv" file name that `upload_to` accepts keeps its extension in the
      stored path, so the stored name passes the check of `save`. */
  lemma CsvPathAccepted(user: nat, filename: string, now: Time)
    requires EndsWith(filename, ".csv") && UploadTo(user, filename, now).Ok?
    ensures ExtensionOk(UploadTo(user, filename, now).value)
  {
    var parts := Split(filename, '.');
    var n, e := parts[0], parts[1];
    JoinSplit(filename, '.');
    assert parts[1..] == [e];
    assert filename == n + "." + e;
    OnlyDot(n, e);
    assert filename[|filename| - 4] == '.';
    assert e == filename[|filename| - 3..];
    var front := UserDir(user) + "/" + n + "_" + Stamp(now);
    assert UploadTo(user, filename, now).value == front + ".csv";
  }

  /** In n + "." + e with no "." in n or e, the only "." is the one between
      them. */
  lemma OnlyDot(n: string, e: string)
    requires '.' !in n && '.' !in e
    ensures forall i :: 0 <= i < |n + "." + e| && (n + "." + e)[i] == '.' ==> i == |n|
  {
    var f := n + "." + e;
    assert forall i :: 0 <= i < |n| ==> f[i] == n[i];
    assert forall i :: |n| < i < |f| ==> f[i] == e[i - |n| - 1];
  }

  /** An upload record. */
  class FileUpload {
    var fileName: string
    var message: Option<string>
    var status: Status
    var user: nat

    /** A new upload: its status defaults to PENDING. */
    constructor (fileName: string, message: Option<string>, user: nat)
      ensures this.fileName == fileName && this.message == message && this.user == user
      ensures status == Pending
    {
      this.fileName := fileName;
      this.message := message;
      this.user := user;
      status := Pending;
    }

    /** `FileUpload.save`: refuses a file name that fails the extension
        check, and otherwise truncates the message to fit its column before
        the record is written; a missing message stays missing. */
    method Save() returns (o: Outcome<UploadError>)
      modifies this
      ensures fileName == old(fileName) && status == old(status) && user == old(user)
      ensures !ExtensionOk(fileName) ==> o == Fail(InvalidExtension) && message == old(message)
      ensures ExtensionOk(fileName) ==>
        o == Pass && message == (if old(message).Some? then Some(Truncate(old(message).value)) else None)
      ensures o.Pass? && message.Some? ==> |message.value| <= MaxMessage
    {
      if !ExtensionOk(fileName) {
        return Fail(InvalidExtension);
      }
      if message.Some? && |message.value| > MaxMessage {
        message := Some(message.value[..497] + "...");
      }
      return Pass;
    }
  }
}
