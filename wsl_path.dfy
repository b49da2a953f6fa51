/**
 * The build script's Windows-to-WSL path rewriting (limine/build.rs): a
 * path with a drive letter, `C:\Users\...`, becomes `/mnt/c/Users/...`;
 * any other path just has its backslashes turned into slashes.
 */
module WslPath {
  import opened Wrappers

  /**
   * A host path as the build script holds it: its text, and whether that
   * text is valid Unicode (a Windows path need not be; then `to_str` fails).
   */
  datatype HostPath = HostPath(text: string, validUnicode: bool)

  datatype PathError = InvalidPath

  /** A second character of ':' marks a drive-letter path. */
  predicate IsDrivePath(s: string)
  {
    |s| >= 2 && s[1] == ':'
  }

  /** `char::to_lowercase` on ASCII: upper-case letters move down by 32, the rest stay. */
  function ToLowerAscii(c: char): (r: char)
    requires (c as int) < 128
    ensures 'A' <= c <= 'Z' ==> 'a' <= r <= 'z' && (r as int) == (c as int) + 32
    ensures !('A' <= c <= 'Z') ==> r == c
  {
    if 'A' <= c <= 'Z' then ((c as int) + 32) as char else c
  }

  /** `replace('\\', "/")`: every backslash becomes a slash, every other character stays put. */
  function ReplaceBackslashes(s: string): (r: string)
    ensures |r| == |s|
    ensures forall i :: 0 <= i < |s| ==> r[i] == (if s[i] == '\\' then '/' else s[i])
  {
    if s == [] then []
    else [if s[0] == '\\' then '/' else s[0]] + ReplaceBackslashes(s[1..])
  }

  /** After the replacement no backslash is left, and a second replacement changes nothing. */
  lemma ReplaceBackslashesNormalises(s: string)
    ensures '\\' !in ReplaceBackslashes(s)
    ensures ReplaceBackslashes(ReplaceBackslashes(s)) == ReplaceBackslashes(s)
  {
  }

  /**
   * `windows_to_wsl_path`. The drive test counts bytes and slices by bytes,
   * which agrees with counting characters whenever the drive character is
   * ASCII; that is what the precondition asks.
   */
  function WindowsToWslPath(p: HostPath): (r: Result<string, PathError>)
    requires p.validUnicode && IsDrivePath(p.text) ==> (p.text[0] as int) < 128
    ensures r.Failure? <==> !p.validUnicode
    ensures r.Success? && IsDrivePath(p.text) ==>
      r.value == "/mnt/" + [ToLowerAscii(p.text[0])] + ReplaceBackslashes(p.text[2..])
    ensures r.Success? && !IsDrivePath(p.text) ==> r.value == ReplaceBackslashes(p.text)
  {
    if !p.validUnicode then Failure(InvalidPath)
    else if IsDrivePath(p.text) then
      Success("/mnt/" + [ToLowerAscii(p.text[0])] + ReplaceBackslashes(p.text[2..]))
    else Success(ReplaceBackslashes(p.text))
  }

  /**
   * A path without a drive letter keeps its length and every character
   * except backslashes, which become slashes; none is left.
   */
  lemma NonDrivePathShape(p: HostPath)
    requires p.validUnicode && !IsDrivePath(p.text)
    ensures var out := WindowsToWslPath(p).value;
      && |out| == |p.text|
      && '\\' !in out
      && (forall i :: 0 <= i < |out| && p.text[i] != '\\' ==> out[i] == p.text[i])
  {
    ReplaceBackslashesNormalises(p.text);
  }

  /**
   * A drive path becomes `/mnt/`, the drive letter in lower case, and the
   * path after the colon with slashes for backslashes: four characters
   * longer, and free of backslashes unless the drive character is one.
   */
  lemma DrivePathShape(p: HostPath)
    requires p.validUnicode && IsDrivePath(p.text) && (p.text[0] as int) < 128
    ensures var out := WindowsToWslPath(p).value;
      && |out| == |p.text| + 4
      && out[..5] == "/mnt/"
      && ('A' <= p.text[0] <= 'Z' || 'a' <= p.text[0] <= 'z' ==> 'a' <= out[5] <= 'z')
      && (forall i :: 0 <= i < |out| && out[i] == '\\' ==> i == 5 && p.text[0] == '\\')
  {
    var rest := ReplaceBackslashes(p.text[2..]);
    ReplaceBackslashesNormalises(p.text[2..]);
    var out := WindowsToWslPath(p).value;
    assert out[5] == ToLowerAscii(p.text[0]);
  }

  /**
   * Rewriting is idempotent on what it produces: the output never has a
   * drive letter, so a second pass only replaces backslashes, and there are
   * none left unless the drive character was one.
   */
  lemma RewriteIsIdempotent(p: HostPath)
    requires p.validUnicode && (IsDrivePath(p.text) ==> (p.text[0] as int) < 128 && p.text[0] != '\\')
    ensures var out := WindowsToWslPath(p).value;
      !IsDrivePath(out) && WindowsToWslPath(HostPath(out, true)) == Success(out)
  {
    var out := WindowsToWslPath(p).value;
    if IsDrivePath(p.text) {
      DrivePathShape(p);
      assert '\\' !in out;
    } else {
      NonDrivePathShape(p);
      if |out| >= 2 {
        assert out[1] == (if p.text[1] == '\\' then '/' else p.text[1]);
      }
    }
    ReplaceBackslashesNormalises(out);
    assert forall i :: 0 <= i < |out| ==> out[i] != '\\';
    assert ReplaceBackslashes(out) == out;
  }

  /** The example from the build script's comment: `C:\Users` becomes `/mnt/c/Users`. */
  lemma DriveExample()
    ensures WindowsToWslPath(HostPath("C:\\Users", true)) == Success("/mnt/c/Users")
  {
    var p := HostPath("C:\\Users", true);
    assert p.text[2..] == "\\Users";
    assert ReplaceBackslashes("\\Users") == "/Users";
    assert ToLowerAscii('C') == 'c';
    assert "/mnt/" + ['c'] + "/Users" == "/mnt/c/Users";
  }
}
