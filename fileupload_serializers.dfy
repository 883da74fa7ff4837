/** The upload serializer of fileupload/serializers.py: the name a stored
    upload is shown under, which undoes the path of `upload_to`, and the
    extension check on an incoming file. */
module UploadSerializers {
  import opened Wrappers
  import opened Text
  import opened FileUploads

  /** `CustomFileField.to_representation`: the part of the stored name
      after its last "/" is shown as Shown gives it. */
  function ToRepresentation(stored: string): (r: Result<string, UploadError>)
    ensures r.Err? <==> Count(Last(Split(stored, '/')), '.') != 1
    ensures r.Err? ==> r.error == BadStoredName
  {
    Shown(Last(Split(stored, '/')))
  }

  /** The shown name of a base name: it must hold exactly one "."; the stem
      before it loses its last "_"-piece, and the extension is put back. */
  function Shown(base: string): (r: Result<string, UploadError>)
    ensures r.Err? <==> Count(base, '.') != 1
    ensures r.Err? ==> r.error == BadStoredName
  {
    var parts := Split(base, '.');
    if |parts| != 2 then Err(BadStoredName)
    else
      var pieces := Split(parts[0], '_');
      Ok(Join(pieces[..|pieces| - 1], '_') + "." + parts[1])
  }

  /** `FileUploadSerializer.validate_file`: the file passes unchanged when
      its name is empty or ends in ".csv", and is refused otherwise. */
  function ValidateFile(name: string): (r: Result<string, UploadError>)
    ensures r.Ok? <==> name == [] || EndsWith(name, ".csv")
    ensures r.Ok? ==> r.value == name
    ensures r.Err? ==> r.error == InvalidExtension
  {
    if name != [] && !EndsWith(name, ".csv") then Err(InvalidExtension) else Ok(name)
  }

  /** The serializer accepts exactly the names that `save` accepts. */
  lemma ValidateAgreesWithSave(name: string)
    ensures ValidateFile(name).Ok? <==> ExtensionOk(name)
  {
  }

  /** A character that is in neither part nor the joint is not in the
      concatenation. */
  lemma NotInConcat(a: string, d: char, b: string, c: char)
    requires c !in a && c !in b && c != d
    ensures c !in a + [d] + b
  {
    assert forall x :: x in a + [d] + b ==> x in a || x == d || x in b;
  }

  /** The base name of a path with a "/" is what follows its last "/". */
  lemma BaseOf(dir: string, rest: string)
    requires '/' !in rest
    ensures Last(Split(dir + "/" + rest, '/')) == rest
  {
    SplitConcat(dir, rest, '/');
    SplitNone(rest, '/');
  }

  /** A base name of one "." is shown with the last "_"-piece of its stem
      dropped. */
  lemma ShownStem(stem: string, e: string)
    requires '.' !in stem && '.' !in e
    ensures var pieces := Split(stem, '_');
      Shown(stem + "." + e) == Ok(Join(pieces[..|pieces| - 1], '_') + "." + e)
  {
    SplitConcat(stem, e, '.');
    SplitNone(stem, '.');
    SplitNone(e, '.');
  }

  /** Dropping the last "_"-piece of `{n}_{stamp}` gives n back when the
      stamp has no "_". */
  lemma DropStamp(n: string, stamp: string)
    requires '_' !in stamp
    ensures var pieces := Split(n + "_" + stamp, '_');
      Join(pieces[..|pieces| - 1], '_') == n
  {
    SplitConcat(n, stamp, '_');
    SplitNone(stamp, '_');
    var pieces := Split(n + "_" + stamp, '_');
    assert pieces[..|pieces| - 1] == Split(n, '_');
    JoinSplit(n, '_');
  }

  /** `{dir}/{n}_{stamp}.{e}` is shown as `{n}.{e}` when the stamp holds
      none of the separators and n and e hold no "." or "/". */
  lemma ShownStored(dir: string, n: string, stamp: string, e: string)
    requires '.' !in n && '.' !in e && '/' !in n && '/' !in e
    requires '/' !in stamp && '.' !in stamp && '_' !in stamp
    ensures ToRepresentation(dir + "/" + n + "_" + stamp + "." + e) == Ok(n + "." + e)
  {
    var stem := n + "_" + stamp;
    assert dir + "/" + n + "_" + stamp + "." + e == dir + "/" + (stem + "." + e);
    NotInConcat(n, '_', stamp, '/');
    NotInConcat(stem, '.', e, '/');
    BaseOf(dir, stem + "." + e);
    NotInConcat(n, '_', stamp, '.');
    ShownStem(stem, e);
    DropStamp(n, stamp);
  }

  /** A file name with one "." and no "/" is shown under its own name once
      `upload_to` has stored it, whatever the user, the time, and the "_"
      inside its stem. */
  lemma RoundTrip(user: nat, n: string, e: string, now: Time)
    requires '.' !in n && '.' !in e && '/' !in n && '/' !in e
    ensures UploadTo(user, n + "." + e, now).Ok?
    ensures ToRepresentation(UploadTo(user, n + "." + e, now).value) == Ok(n + "." + e)
  {
    UploadToOneDot(user, n, e, now);
    var stamp := Stamp(now);
    DigitsAvoid(stamp, '/');
    DigitsAvoid(stamp, '.');
    DigitsAvoid(stamp, '_');
    ShownStored(UserDir(user), n, stamp, e);
  }

  /** A stem without "_" is shown as empty. */
  lemma ShownNoUnderscore(stem: string, e: string)
    requires '.' !in stem && '.' !in e && '_' !in stem
    ensures Shown(stem + "." + e) == Ok("." + e)
  {
    ShownStem(stem, e);
    SplitNone(stem, '_');
    var none: seq<string> := [];
    assert Split(stem, '_')[..0] == none;
    var empty: string := Join(none, '_');
    assert empty == [];
    assert empty + "." + e == "." + e;
  }

  /** "abc.csv" is shown as ".csv". */
  lemma NoUnderscoreExample()
    ensures ToRepresentation("abc.csv") == Ok(".csv")
  {
    var s: string := "abc.csv";
    assert s == "abc" + "." + "csv";
    NotInConcat("abc", '.', "csv", '/');
    SplitNone(s, '/');
    ShownNoUnderscore("abc", "csv");
  }
}
