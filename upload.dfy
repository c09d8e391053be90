/** The upload filter `allowed_file`: a file name is accepted when it has a
    dot and the text after its last dot, lower-cased, is one of the four
    accepted extensions. */
module Upload {
  import opened Common

  const AllowedExtensions: set<string> := {"csv", "svg", "png", "xlsx"}

  /** Lower-casing of one character: the ASCII capitals map to small letters,
      every other character is left as it is. */
  function LowerChar(c: char): char
  {
    if 'A' <= c <= 'Z' then (c as int + 32) as char else c
  }

  /** Lower-casing of a string, character by character. */
  function Lower(s: string): (r: string)
    ensures |r| == |s|
    ensures forall i :: 0 <= i < |s| ==> r[i] == LowerChar(s[i])
  {
    if s == [] then [] else Lower(s[..|s| - 1]) + [LowerChar(s[|s| - 1])]
  }

  /** The position of the last dot, if there is one. */
  function LastDot(s: string): (r: Option<nat>)
    ensures r.None? <==> '.' !in s
    ensures r.Some? ==> r.value < |s| && s[r.value] == '.' && '.' !in s[r.value + 1..]
  {
    if s == [] then None
    else if s[|s| - 1] == '.' then Some(|s| - 1)
    else
      var r := LastDot(s[..|s| - 1]);
      assert s == s[..|s| - 1] + [s[|s| - 1]];
      assert r.Some? ==> s[r.value + 1..] == s[..|s| - 1][r.value + 1..] + [s[|s| - 1]];
      r
  }

  /** `rsplit('.', 1)`: the whole name when it has no dot, otherwise the
      parts before and after its last dot. */
  function RSplitLastDot(s: string): (parts: seq<string>)
    ensures '.' !in s ==> parts == [s]
    ensures '.' in s ==> |parts| == 2 && parts[0] + "." + parts[1] == s && '.' !in parts[1]
  {
    match LastDot(s)
    case None => [s]
    case Some(i) =>
      assert s == s[..i] + "." + s[i + 1..];
      [s[..i], s[i + 1..]]
  }

  /** `allowed_file`. */
  function AllowedFile(filename: string): (ok: bool)
    ensures ok <==> exists i :: 0 <= i < |filename| && filename[i] == '.' && '.' !in filename[i + 1..]
                                && Lower(filename[i + 1..]) in AllowedExtensions
  {
    '.' in filename && Lower(RSplitLastDot(filename)[1]) in AllowedExtensions
  }

  // ---------------------------------------------------------------------
  // Properties

  /** A name ending in a dot has an empty extension and is refused. */
  lemma TrailingDotRejected(filename: string)
    requires filename != [] && filename[|filename| - 1] == '.'
    ensures !AllowedFile(filename)
  {
    assert LastDot(filename) == Some(|filename| - 1);
    assert Lower([]) !in AllowedExtensions;
  }

  /** A name without a dot is refused, whatever it says. */
  lemma NoDotRejected(filename: string)
    requires '.' !in filename
    ensures !AllowedFile(filename)
  {
  }

  lemma LowerSuffix(s: string, i: nat)
    requires i <= |s|
    ensures Lower(s)[i..] == Lower(s[i..])
  {
    assert forall k :: 0 <= k < |s| - i ==> Lower(s)[i..][k] == Lower(s[i..])[k];
  }

  lemma LowerIdempotent(s: string)
    ensures Lower(Lower(s)) == Lower(s)
  {
  }

  /** Lower-casing neither creates nor removes a dot, so the last dot stays put. */
  lemma {:induction false} LowerKeepsLastDot(s: string)
    ensures LastDot(Lower(s)) == LastDot(s)
  {
    if s != [] {
      var low := Lower(s);
      LowerKeepsLastDot(s[..|s| - 1]);
      assert low[..|low| - 1] == Lower(s[..|s| - 1]);
    }
  }

  /** Lower-casing the whole name first changes nothing: the check ignores
      the case of every letter. */
  lemma CaseInsensitive(filename: string)
    ensures AllowedFile(Lower(filename)) == AllowedFile(filename)
  {
    LowerKeepsLastDot(filename);
    match LastDot(filename)
    case None =>
    case Some(i) =>
      LowerSuffix(filename, i + 1);
      LowerIdempotent(filename[i + 1..]);
  }

  /** Upper-case extensions are accepted. */
  lemma UpperCaseExtension()
    ensures AllowedFile("Drawing.CSV")
  {
    assert Lower("CSV") == "csv";
    assert "Drawing.CSV"[7] == '.';
    assert "Drawing.CSV"[8..] == "CSV";
  }

  /** Once the last dot is known, the text after it alone decides. */
  lemma ExtensionDecides(filename: string, i: nat)
    requires i < |filename| && filename[i] == '.' && '.' !in filename[i + 1..]
    ensures AllowedFile(filename) <==> Lower(filename[i + 1..]) in AllowedExtensions
  {
  }

  /** Only the part after the last dot counts: an accepted extension
      followed by another dot and a refused one is refused, and the other
      way round is accepted. */
  lemma {:induction false} DoubleExtension(stem: string, inner: string, outer: string)
    requires '.' !in outer
    ensures AllowedFile(stem + "." + inner + "." + outer) <==> Lower(outer) in AllowedExtensions
  {
    var name := stem + "." + inner + "." + outer;
    var i := |stem| + 1 + |inner|;
    assert name[i] == '.';
    assert name[i + 1..] == outer;
    ExtensionDecides(name, i);
  }

  lemma LastDotAccepts()
    ensures AllowedFile("shapes.tar.png")
  {
    var name := "shapes.tar.png";
    assert name[10] == '.' && name[11..] == "png";
    assert Lower("png") == "png";
  }

  lemma LastDotRefuses(stem: string)
    ensures !AllowedFile(stem + ".png.exe")
  {
    var name := stem + ".png.exe";
    var i := |stem| + 4;
    assert name[i] == '.';
    var ext := name[i + 1..];
    assert ext == "exe";
    ExtensionDecides(name, i);
    ExeNotAllowed();
  }

  /** `exe` is its own lower-case form and not an accepted extension. Kept
      apart so that the literal comparisons are made without the quantified
      facts about the whole file name in scope. */
  lemma ExeNotAllowed()
    ensures Lower("exe") == "exe" && "exe" !in AllowedExtensions
  {
    LowerKeepsSmall("exe");
  }

  /** Text without capitals is its own lower-case form. */
  lemma LowerKeepsSmall(s: string)
    requires forall i :: 0 <= i < |s| ==> !('A' <= s[i] <= 'Z')
    ensures Lower(s) == s
  {
  }
}
