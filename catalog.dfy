/**
 * The fixed configuration and the pure string helpers of the gallery:
 * the group catalog, the extension allow-list, the file-name check,
 * Python's `str.strip` and `str.lower` as the application uses them,
 * and the rewriting of the database URL.
 */
module Catalog {
  import opened Wrappers

  // ---------------------------------------------------------------------
  // Group catalog and extension allow-list
  // ---------------------------------------------------------------------

  /** The group keys in catalog order (the list built from the catalog's keys). */
  const TurmaKeys: seq<string> := ["7ano", "8ano", "9ano", "1em", "2em"]

  /** The group catalog: group key to display name. */
  const Turmas: map<string, string> := map[
    "7ano" := "7\U{BA} Ano",
    "8ano" := "8\U{BA} Ano",
    "9ano" := "9\U{BA} Ano",
    "1em"  := "1\U{BA} Ensino M\U{E9}dio",
    "2em"  := "2\U{BA} Ensino M\U{E9}dio"
  ]

  /** The file extensions an upload may have, in lower case. */
  const AllowedExtensions: set<string> := {"png", "jpg", "jpeg", "gif", "webp"}

  predicate IsTurma(k: string) {
    k in Turmas
  }

  /** The ordered key list and the catalog agree: five distinct keys, the same set. */
  lemma CatalogShape()
    ensures |TurmaKeys| == 5 && |Turmas| == 5
    ensures forall k :: k in TurmaKeys <==> k in Turmas
    ensures forall i, j :: 0 <= i < j < |TurmaKeys| ==> TurmaKeys[i] != TurmaKeys[j]
  {
    assert Turmas.Keys == {"7ano", "8ano", "9ano", "1em", "2em"};
  }

  /** Where a catalog key stands in the ordered key list. */
  lemma TurmaKeyIndex(k: string) returns (j: nat)
    requires k in Turmas
    ensures j < |TurmaKeys| && TurmaKeys[j] == k
  {
    j := if k == "7ano" then 0 else if k == "8ano" then 1 else if k == "9ano" then 2
         else if k == "1em" then 3 else 4;
  }

  // ---------------------------------------------------------------------
  // Case folding
  // ---------------------------------------------------------------------

  /** Lower-case one character (ASCII letters; every other character is kept). */
  function LowerChar(c: char): char {
    if 'A' <= c <= 'Z' then (c as int + 32) as char else c
  }

  /** Lower-case a string character by character. */
  function Lower(s: string): string {
    seq(|s|, i requires 0 <= i < |s| => LowerChar(s[i]))
  }

  // ---------------------------------------------------------------------
  // Extension of a file name: the text after the last '.'
  // ---------------------------------------------------------------------

  /** The position of the last '.' in `s`, if there is one. */
  function LastDot(s: string): (r: Option<nat>)
    ensures r.None? <==> '.' !in s
    ensures r.Some? ==> r.value < |s| && s[r.value] == '.'
    ensures r.Some? ==> forall j :: r.value < j < |s| ==> s[j] != '.'
  {
    if s == [] then None
    else if s[|s| - 1] == '.' then Some(|s| - 1)
    else
      var r := LastDot(s[..|s| - 1]);
      assert forall c :: c in s[..|s| - 1] ==> c in s;
      assert '.' in s ==> '.' in s[..|s| - 1] by {
        if '.' in s {
          var k :| 0 <= k < |s| && s[k] == '.';
          assert k < |s| - 1 && s[..|s| - 1][k] == '.';
        }
      }
      r
  }

  /** The second part of `s.rsplit(".", 1)`: absent when `s` holds no '.',
      otherwise the text after the last '.', which holds no '.' itself. */
  function Extension(s: string): (r: Option<string>)
    ensures r.None? <==> '.' !in s
    ensures forall i :: IsLastDot(s, i) ==> r == Some(s[i + 1..])
    ensures r.Some? ==> '.' !in r.value
  {
    match LastDot(s)
    case None => None
    case Some(i) =>
      assert forall j :: IsLastDot(s, j) ==> j == i by {
        forall j | IsLastDot(s, j) ensures j == i { LastDotUnique(s, j); }
      }
      assert '.' !in s[i + 1..] by {
        var t := s[i + 1..];
        forall k | 0 <= k < |t| ensures t[k] != '.' {
          assert t[k] == s[i + 1 + k];
        }
      }
      Some(s[i + 1..])
  }

  /** The file-name check for uploads: a name is accepted exactly when it
      holds a '.' and the lower-cased text after its last '.' is on the
      allow-list. */
  function AllowedFile(filename: string): (r: bool)
    ensures r <==> exists i :: IsLastDot(filename, i) && Lower(filename[i + 1..]) in AllowedExtensions
  {
    var r := '.' in filename && Lower(Extension(filename).value) in AllowedExtensions;
    assert r ==> exists i :: IsLastDot(filename, i) && Lower(filename[i + 1..]) in AllowedExtensions by {
      if r {
        var l := LastDot(filename).value;
        assert IsLastDot(filename, l);
      }
    }
    r
  }

  /** `i` is the position of the last '.' in `n`. */
  ghost predicate IsLastDot(n: string, i: int) {
    0 <= i < |n| && n[i] == '.' && forall j :: i < j < |n| ==> n[j] != '.'
  }

  /** The last '.' is the one `LastDot` finds. */
  lemma LastDotUnique(n: string, i: int)
    requires IsLastDot(n, i)
    ensures LastDot(n) == Some(i)
  {
    assert '.' in n;
    var l := LastDot(n).value;
    assert !(l > i) && !(l < i);
  }

  /** An extension differing from an allowed one only in case is accepted;
      the check is not fooled by an allowed extension earlier in the name. */
  lemma AllowedFileExamples()
    ensures AllowedFile("photo.JPG")
    ensures AllowedFile("photo.gif.png")
    ensures !AllowedFile("doc.pdf")
    ensures !AllowedFile("noext")
    ensures !AllowedFile("photo.jpg.exe")
    ensures !AllowedFile("photo.")
  {
    assert IsLastDot("photo.JPG", 5);
    assert Extension("photo.JPG") == Some("JPG");
    assert Lower("JPG") == "jpg";
    assert IsLastDot("photo.gif.png", 9);
    assert Extension("photo.gif.png") == Some("png");
    assert Lower("png") == "png";
    assert IsLastDot("doc.pdf", 3);
    assert Extension("doc.pdf") == Some("pdf");
    assert Lower("pdf") == "pdf";
    assert "noext"[4] != '.';
    assert IsLastDot("photo.jpg.exe", 9);
    assert Extension("photo.jpg.exe") == Some("exe");
    assert Lower("exe") == "exe";
    LastDotUnique("photo.", 5);
  }

  // ---------------------------------------------------------------------
  // Python's str.strip()
  // ---------------------------------------------------------------------

  /** The characters Python's `str.isspace` accepts. Among the ASCII
      characters these are the blank, the six controls tab to carriage return
      and the four separators 0x1C to 0x1F. */
  function IsSpace(c: char): (r: bool)
    ensures c as int < 128 ==> (r <==> c in " \t\n\r\U{0B}\U{0C}\U{1C}\U{1D}\U{1E}\U{1F}")
  {
    c == ' ' || '\t' <= c <= '\r' || '\U{1C}' <= c <= '\U{1F}'
    || c == '\U{85}' || c == '\U{A0}' || c == '\U{1680}'
    || '\U{2000}' <= c <= '\U{200A}' || c == '\U{2028}' || c == '\U{2029}'
    || c == '\U{202F}' || c == '\U{205F}' || c == '\U{3000}'
  }

  /** `s` without its leading white space: a suffix of `s`, all of whose
      dropped characters are white space, that starts with a non-space. */
  function TrimStart(s: string): (r: string)
    ensures |r| <= |s| && r == s[|s| - |r|..]
    ensures forall k :: 0 <= k < |s| - |r| ==> IsSpace(s[k])
    ensures r != [] ==> !IsSpace(r[0])
  {
    if s != [] && IsSpace(s[0]) then TrimStart(s[1..]) else s
  }

  /** `s` without its trailing white space. */
  function TrimEnd(s: string): (r: string)
    ensures |r| <= |s| && r == s[..|r|]
    ensures forall k :: |r| <= k < |s| ==> IsSpace(s[k])
    ensures r != [] ==> !IsSpace(r[|r| - 1])
  {
    if s != [] && IsSpace(s[|s| - 1]) then TrimEnd(s[..|s| - 1]) else s
  }

  /** `r` is the slice of `s` starting at `i` and everything around it is white space. */
  ghost predicate StrippedAt(s: string, r: string, i: int) {
    && 0 <= i <= |s| - |r| && r == s[i..i + |r|]
    && (forall k :: 0 <= k < i ==> IsSpace(s[k]))
    && (forall k :: i + |r| <= k < |s| ==> IsSpace(s[k]))
  }

  /** `s.strip()`: a middle slice of `s` that neither starts nor ends with
      white space, everything around it being white space. */
  function Strip(s: string): (r: string)
    ensures exists i :: StrippedAt(s, r, i)
    ensures r != [] ==> !IsSpace(r[0]) && !IsSpace(r[|r| - 1])
  {
    var t := TrimStart(s);
    var r := TrimEnd(t);
    assert StrippedAt(s, r, |s| - |t|) by { TrimmedSlices(s, t, r); }
    r
  }

  /** A suffix of `s` after white space, cut short before white space, is a
      slice of `s` with only white space around it. */
  lemma TrimmedSlices(s: string, t: string, r: string)
    requires |t| <= |s| && t == s[|s| - |t|..]
    requires forall k :: 0 <= k < |s| - |t| ==> IsSpace(s[k])
    requires |r| <= |t| && r == t[..|r|]
    requires forall k :: |r| <= k < |t| ==> IsSpace(t[k])
    ensures StrippedAt(s, r, |s| - |t|)
  {
    var i := |s| - |t|;
    assert r == s[i..i + |r|];
    forall k | i + |r| <= k < |s| ensures IsSpace(s[k]) {
      assert s[k] == t[k - i];
    }
  }

  /** Stripping is idempotent. */
  lemma StripIdempotent(s: string)
    ensures Strip(Strip(s)) == Strip(s)
  {
    var r := Strip(s);
    if r != [] {
      assert TrimStart(r) == r;
      assert TrimEnd(r) == r;
    }
  }

  // ---------------------------------------------------------------------
  // Database URL
  // ---------------------------------------------------------------------

  const LegacyScheme: string := "postgres://"
  const ModernScheme: string := "postgresql://"

  predicate StartsWith(s: string, prefix: string) {
    |prefix| <= |s| && s[..|prefix|] == prefix
  }

  /** `s.replace(pat, rep, 1)`: the first occurrence of `pat` is replaced. */
  function ReplaceFirst(s: string, pat: string, rep: string): (r: string)
    requires pat != []
    ensures StartsWith(s, pat) ==> r == rep + s[|pat|..]
    decreases |s|
  {
    if |s| < |pat| then s
    else if s[..|pat|] == pat then rep + s[|pat|..]
    else [s[0]] + ReplaceFirst(s[1..], pat, rep)
  }

  /** The database URL as handed to the mapping layer: a legacy
      `postgres://` prefix is rewritten to `postgresql://`. */
  function NormalizeDatabaseUrl(url: string): (r: string)
    ensures StartsWith(url, LegacyScheme) ==> r == ModernScheme + url[|LegacyScheme|..]
    ensures !StartsWith(url, LegacyScheme) ==> r == url
  {
    if url != [] && StartsWith(url, LegacyScheme) then
      ReplaceFirst(url, LegacyScheme, ModernScheme)
    else url
  }

  /** A normalised URL is never rewritten again. */
  lemma NormalizeIdempotent(url: string)
    ensures NormalizeDatabaseUrl(NormalizeDatabaseUrl(url)) == NormalizeDatabaseUrl(url)
  {
    var r := NormalizeDatabaseUrl(url);
    if StartsWith(url, LegacyScheme) {
      assert r[8] == 'q';
      assert !StartsWith(r, LegacyScheme);
    }
  }

  /** Examples: the legacy scheme is rewritten once, everything else kept. */
  lemma NormalizeExamples()
    ensures NormalizeDatabaseUrl("postgres://u@h/db") == "postgresql://u@h/db"
    ensures NormalizeDatabaseUrl("postgresql://u@h/db") == "postgresql://u@h/db"
    ensures NormalizeDatabaseUrl("sqlite:///app.db") == "sqlite:///app.db"
    ensures NormalizeDatabaseUrl("") == ""
  {
    assert StartsWith("postgres://u@h/db", LegacyScheme);
    assert "postgresql://u@h/db"[8] == 'q';
    assert "sqlite:///app.db"[0] == 's';
  }
}
