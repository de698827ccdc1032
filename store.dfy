/**
 * The gallery's state and its request handlers: the record table, the
 * upload directory (a set of blob names), and the session's admin flag.
 * Every handler returns where the request ends up instead of rendering or
 * redirecting.
 */
module Store {
  import opened Wrappers
  import opened Catalog
  import opened Records

  /** How a request ends. */
  datatype Outcome =
    | Unauthorized(next: string)            // redirect to the login form, carrying the requested path
    | InvalidGroup                          // back to the upload form: no valid group chosen
    | MissingFile                           // back to the upload form: no file chosen
    | UnsupportedFormat                     // back to the upload form: extension not allowed
    | Uploaded(id: nat, turma: string)      // to the admin listing filtered to the group
    | NotFound                              // to the admin listing: no such image
    | Deleted(formerTurma: Option<string>)      // to the admin listing filtered to the former group
    | LoggedIn(next: string)                // redirect to `next`
    | WrongPassword(next: string)           // the login form again
    | LoggedOut                             // redirect home
    | AdminPage(images: seq<Image>, filter: string)

  const AdminPath: string := "/admin"
  const UploadPath: string := "/upload"

  function Digit(d: nat): (c: char)
    requires d < 10
    ensures '0' <= c <= '9'
  {
    ('0' as int + d) as char
  }

  /** The decimal spelling of `n`. */
  function Decimal(n: nat): (r: string)
    ensures r != [] && forall k :: 0 <= k < |r| ==> '0' <= r[k] <= '9'
  {
    if n < 10 then [Digit(n)] else Decimal(n / 10) + [Digit(n % 10)]
  }

  /** The request path of the delete action for image `id`. */
  function DeletePath(id: nat): string {
    "/delete/" + Decimal(id)
  }

  /** The stored name of an upload: the stamp, a '.', and the lower-cased
      extension of the client's file name, which is then also the text after
      the stored name's own last '.'; for an accepted name it is on the
      allow-list. */
  function UploadFilename(stamp: string, clientName: string): (r: string)
    requires '.' in clientName
    ensures StartsWith(r, stamp + ".")
    ensures Extension(r) == Some(Lower(Extension(clientName).value))
    ensures AllowedFile(clientName) ==> Extension(r).value in AllowedExtensions
  {
    var e := Lower(Extension(clientName).value);
    var r := stamp + "." + e;
    assert '.' !in e by {
      var x := Extension(clientName).value;
      forall k | 0 <= k < |e| ensures e[k] != '.' {
        assert e[k] == LowerChar(x[k]);
        assert x[k] != '.';
      }
    }
    assert IsLastDot(r, |stamp|) by {
      forall j | |stamp| < j < |r| ensures r[j] != '.' {
        assert r[j] == e[j - |stamp| - 1];
      }
    }
    assert r[|stamp| + 1..] == e;
    assert AllowedFile(clientName) ==> e in AllowedExtensions by {
      if AllowedFile(clientName) {
        var i :| IsLastDot(clientName, i) && Lower(clientName[i + 1..]) in AllowedExtensions;
      }
    }
    assert r[..|stamp + "."|] == stamp + ".";
    r
  }

  /** The caption as stored: stripped, and absent when nothing is left. */
  function StoredCaption(captionField: string): (r: Option<string>)
    ensures r.None? <==> forall k :: 0 <= k < |captionField| ==> IsSpace(captionField[k])
    ensures r.Some? ==> r.value == Strip(captionField)
  {
    var c := Strip(captionField);
    assert c == [] <==> forall k :: 0 <= k < |captionField| ==> IsSpace(captionField[k]) by {
      var i :| StrippedAt(captionField, c, i);
      assert c != [] ==> captionField[i] == c[0];
    }
    if c == [] then None else Some(c)
  }

  /** "photo.JPG" is stored under the stamp with the extension "jpg". */
  lemma UploadFilenameExample(stamp: string)
    ensures UploadFilename(stamp, "photo.JPG") == stamp + ".jpg"
  {
    LastDotUnique("photo.JPG", 5);
    assert Lower("JPG") == "jpg";
  }

  class Gallery {
    /** The image table, by primary key. */
    var images: Table
    /** The names of the files in the upload directory. */
    var blobs: set<string>
    /** The session flag set by a correct password. */
    var isAdmin: bool
    /** The configured admin password. */
    const adminPassword: string

    ghost predicate Valid()
      reads this
    {
      WellKeyed(images) && UniqueFilenames(images)
    }

    constructor (adminPassword: string)
      ensures Valid()
      ensures images == map[] && blobs == {} && !isAdmin
      ensures this.adminPassword == adminPassword
    {
      images := map[];
      blobs := {};
      isAdmin := false;
      this.adminPassword := adminPassword;
    }

    /** The guard in front of the admin actions: a request without the flag
        is refused and sent to the login form carrying the path it asked for. */
    method Guard(path: string) returns (refusal: Option<Outcome>)
      ensures refusal.None? <==> isAdmin
      ensures refusal.Some? ==> refusal.value == Unauthorized(path)
    {
      refusal := if isAdmin then None else Some(Unauthorized(path));
    }

    /** The login form's POST: a password equal to the configured one sets
        the flag; a wrong one leaves the flag as it was. */
    method Auth(senha: string, next: Option<string>) returns (outcome: Outcome)
      modifies this`isAdmin
      ensures var nxt := if next.Some? && next.value != "" then next.value else AdminPath;
        if senha == adminPassword then isAdmin && outcome == LoggedIn(nxt)
        else isAdmin == old(isAdmin) && outcome == WrongPassword(nxt)
    {
      var nxt := if next.Some? && next.value != "" then next.value else AdminPath;
      if senha == adminPassword {
        isAdmin := true;
        outcome := LoggedIn(nxt);
      } else {
        outcome := WrongPassword(nxt);
      }
    }

    /** Leaving the admin area clears the flag. */
    method Logout() returns (outcome: Outcome)
      modifies this`isAdmin
      ensures !isAdmin && outcome == LoggedOut
    {
      isAdmin := false;
      outcome := LoggedOut;
    }

    /** Writing an upload's bytes; an existing file of that name is replaced. */
    method SaveBlob(name: string)
      modifies this`blobs
      ensures blobs == old(blobs) + {name}
    {
      blobs := blobs + {name};
    }

    /** Removing a file; `existed` is false where the removal finds no file. */
    method RemoveBlob(name: string) returns (existed: bool)
      modifies this`blobs
      ensures existed == (name in old(blobs))
      ensures blobs == old(blobs) - {name}
    {
      existed := name in blobs;
      if existed {
        blobs := blobs - {name};
      }
    }

    /** The upload form's POST. The group is checked first, the file second
        and its extension third; a failed check changes nothing. */
    method Upload(file: Option<string>, captionField: string, turmaField: string,
                  stamp: string, newId: nat, now: int) returns (outcome: Outcome)
      requires Valid()
      requires newId !in images
      requires file.Some? && AllowedFile(file.value) ==>
        forall i :: i in images ==> images[i].filename != UploadFilename(stamp, file.value)
      modifies this`images, this`blobs
      ensures Valid()
      ensures !isAdmin ==>
        outcome == Unauthorized(UploadPath) && images == old(images) && blobs == old(blobs)
      ensures isAdmin && Strip(turmaField) !in Turmas ==>
        outcome == InvalidGroup && images == old(images) && blobs == old(blobs)
      ensures isAdmin && Strip(turmaField) in Turmas && (file.None? || file.value == "") ==>
        outcome == MissingFile && images == old(images) && blobs == old(blobs)
      ensures isAdmin && Strip(turmaField) in Turmas && file.Some? && file.value != ""
              && !AllowedFile(file.value) ==>
        outcome == UnsupportedFormat && images == old(images) && blobs == old(blobs)
      ensures isAdmin && Strip(turmaField) in Turmas && file.Some? && AllowedFile(file.value) ==>
        var name := UploadFilename(stamp, file.value);
        && outcome == Uploaded(newId, Strip(turmaField))
        && blobs == old(blobs) + {name}
        && images == old(images)[newId := Image(newId, name, file.value,
                                                StoredCaption(captionField),
                                                Some(Strip(turmaField)), now)]
    {
      var refusal := Guard(UploadPath);
      if refusal.Some? {
        return refusal.value;
      }
      var caption := StoredCaption(captionField);
      var turma := Strip(turmaField);
      if turma !in Turmas {
        return InvalidGroup;
      }
      if file.None? || file.value == "" {
        return MissingFile;
      }
      if !AllowedFile(file.value) {
        return UnsupportedFormat;
      }
      var name := UploadFilename(stamp, file.value);
      SaveBlob(name);
      images := images[newId := Image(newId, name, file.value, caption, Some(turma), now)];
      outcome := Uploaded(newId, turma);
    }

    /** The delete action. A missing image changes nothing; otherwise its
        file is removed (an already missing file is tolerated) and then its row. */
    method Delete(id: nat) returns (outcome: Outcome)
      requires Valid()
      modifies this`images, this`blobs
      ensures Valid()
      ensures !isAdmin ==>
        outcome == Unauthorized(DeletePath(id)) && images == old(images) && blobs == old(blobs)
      ensures isAdmin && id !in old(images) ==>
        outcome == NotFound && images == old(images) && blobs == old(blobs)
      ensures isAdmin && id in old(images) ==>
        && outcome == Deleted(old(images)[id].turma)
        && images == old(images) - {id}
        && blobs == old(blobs) - {old(images)[id].filename}
    {
      var refusal := Guard(DeletePath(id));
      if refusal.Some? {
        return refusal.value;
      }
      if id !in images {
        return NotFound;
      }
      var img := images[id];
      var existed := RemoveBlob(img.filename);
      images := images - {id};
      outcome := Deleted(img.turma);
    }

    /** The admin listing: every row, or the rows of the filter's group when
        the stripped filter is a catalog key; newest first. */
    method Admin(turmaArg: string) returns (outcome: Outcome)
      requires Valid()
      ensures !isAdmin ==> outcome == Unauthorized(AdminPath)
      ensures isAdmin ==> outcome.AdminPage? && outcome.filter == Strip(turmaArg)
      ensures isAdmin && Strip(turmaArg) in Turmas ==>
        ListsExactly(images, IdsWith(images, Some(Strip(turmaArg))), outcome.images)
      ensures isAdmin && Strip(turmaArg) !in Turmas ==>
        ListsExactly(images, images.Keys, outcome.images)
    {
      var refusal := Guard(AdminPath);
      if refusal.Some? {
        return refusal.value;
      }
      var turma := Strip(turmaArg);
      outcome := AdminPage(AdminListing(images, turma), turma);
    }

    /** The home page data: for every catalog key, the number of rows of that
        group (zero when it has none) and the group's newest row. Rows whose
        group is outside the catalog are not counted anywhere. */
    method Index() returns (counts: map<string, nat>, latest: map<string, Option<Image>>)
      ensures counts.Keys == Turmas.Keys && latest.Keys == Turmas.Keys
      ensures forall k :: k in Turmas ==> counts[k] == GroupSize(images, Some(k))
      ensures forall k :: k in Turmas ==> latest[k] == Latest(images, k)
    {
      counts := CountByGroup();
      latest := LatestByGroup();
    }

    /** The first loop of the home page: start every catalog key at zero, then
        take the count of each distinct group value that is a catalog key. */
    method CountByGroup() returns (counts: map<string, nat>)
      ensures counts.Keys == Turmas.Keys
      ensures forall k :: k in Turmas ==> counts[k] == GroupSize(images, Some(k))
    {
      counts := map k | k in Turmas :: 0;
      // the grouped query: one row per distinct group value, with its count
      var rows := GroupValues(images);
      ghost var done: set<Option<string>> := {};
      while rows != {}
        invariant rows !! done
        invariant rows + done == GroupValues(images)
        invariant counts.Keys == Turmas.Keys
        invariant forall k :: k in Turmas ==>
          counts[k] == if Some(k) in done then GroupSize(images, Some(k)) else 0
        decreases rows
      {
        var t :| t in rows;
        if t.Some? && t.value in counts {
          counts := counts[t.value := GroupSize(images, t)];
        }
        rows := rows - {t};
        done := done + {t};
      }
      forall k | k in Turmas && Some(k) !in done
        ensures GroupSize(images, Some(k)) == 0
      {
        assert IdsWith(images, Some(k)) == {};
      }
    }

    /** The second loop of the home page: the newest row of each catalog key. */
    method LatestByGroup() returns (latest: map<string, Option<Image>>)
      ensures latest.Keys == Turmas.Keys
      ensures forall k :: k in Turmas ==> latest[k] == Latest(images, k)
    {
      latest := map k | k in Turmas :: None;
      for n := 0 to |TurmaKeys|
        invariant latest.Keys == Turmas.Keys
        invariant forall j :: 0 <= j < n ==> latest[TurmaKeys[j]] == Latest(images, TurmaKeys[j])
      {
        latest := latest[TurmaKeys[n] := Latest(images, TurmaKeys[n])];
      }
      forall k | k in Turmas ensures latest[k] == Latest(images, k) {
        var j := TurmaKeyIndex(k);
      }
    }
  }

  /** Removing what was just added to a table and a directory gives them back. */
  lemma InsertThenRemove(m: Table, id: nat, x: Image, b: set<string>, name: string)
    requires id !in m && name !in b
    ensures m[id := x] - {id} == m && (b + {name}) - {name} == b
  {
    assert (m[id := x] - {id}).Keys == m.Keys;
  }

  /** An upload followed by the deletion of the new row: both succeed, and
      the table and the upload directory are as before when the stored name
      was not taken. */
  method UploadThenDelete(g: Gallery, clientName: string, captionField: string,
                          turmaField: string, stamp: string, id: nat, now: int)
    returns (uploaded: Outcome, deleted: Outcome)
    requires g.Valid() && g.isAdmin && id !in g.images
    requires AllowedFile(clientName) && Strip(turmaField) in Turmas
    requires forall i :: i in g.images ==> g.images[i].filename != UploadFilename(stamp, clientName)
    requires UploadFilename(stamp, clientName) !in g.blobs
    modifies g
    ensures g.Valid()
    ensures uploaded == Uploaded(id, Strip(turmaField))
    ensures deleted == Deleted(Some(Strip(turmaField)))
    ensures g.images == old(g.images) && g.blobs == old(g.blobs)
  {
    ghost var name := UploadFilename(stamp, clientName);
    ghost var m0, b0 := g.images, g.blobs;
    uploaded := g.Upload(Some(clientName), captionField, turmaField, stamp, id, now);
    ghost var row := g.images[id];
    assert row.turma == Some(Strip(turmaField)) && row.filename == name;
    InsertThenRemove(m0, id, row, b0, name);
    deleted := g.Delete(id);
  }
}
