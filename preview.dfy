/**
 * The card preview of a condition: the first line of its description that
 * is neither blank nor a markdown heading, stripped and cut to a maximum
 * number of characters (`get_preview_text` in html/generate-site.py).
 */
module Preview {
  import opened PyString

  /** The default `max_chars` of the preview. */
  const DefaultMaxChars: int := 150

  /**
   * What reading a description file delivers. `Complete` is the whole file,
   * split into lines; `Interrupted` holds the lines delivered before opening
   * or reading raised an exception (none, when the file could not be opened).
   */
  datatype TextFile = Complete(lines: seq<string>) | Interrupted(lines: seq<string>)

  /** A line that can serve as preview: after stripping it is non-empty and does not start with `#`. */
  predicate Qualifies(line: string) {
    var t := Strip(line);
    t != [] && t[0] != '#'
  }

  /** `k` is the index of the first qualifying line. */
  predicate IsFirstQualifying(lines: seq<string>, k: int) {
    0 <= k < |lines| && Qualifies(lines[k]) && forall j :: 0 <= j < k ==> !Qualifies(lines[j])
  }

  /**
   * The preview of the given lines: the first qualifying line, stripped and
   * cut with `[:maxChars]`, or "" when no line qualifies. It is never longer
   * than a non-negative `maxChars`.
   */
  function PreviewOf(lines: seq<string>, maxChars: int): (r: string)
    ensures 0 <= maxChars ==> |r| <= maxChars
  {
    if lines == [] then ""
    else if Qualifies(lines[0]) then SliceTo(Strip(lines[0]), maxChars)
    else PreviewOf(lines[1..], maxChars)
  }

  /**
   * `get_preview_text`: stops at the first qualifying line; a file that ends,
   * or a read that fails, before such a line gives "".
   */
  method GetPreviewText(file: TextFile, maxChars: int) returns (preview: string)
    ensures preview == PreviewOf(file.lines, maxChars)
    ensures 0 <= maxChars ==> |preview| <= maxChars
  {
    var lines := file.lines;
    var i := 0;
    while i < |lines|
      invariant 0 <= i <= |lines|
      invariant PreviewOf(lines[i..], maxChars) == PreviewOf(lines, maxChars)
    {
      assert lines[i..][1..] == lines[i + 1..];
      var line := Strip(lines[i]);
      if line == [] || line[0] == '#' {
        i := i + 1;
        continue;
      }
      return SliceTo(line, maxChars);
    }
    return "";
  }

  /**
   * The preview is the cut stripped text of the first qualifying line, and so
   * a prefix of that stripped line.
   */
  lemma {:induction false} PreviewIsFirstQualifyingLine(lines: seq<string>, k: int, maxChars: int)
    requires IsFirstQualifying(lines, k)
    ensures PreviewOf(lines, maxChars) == SliceTo(Strip(lines[k]), maxChars)
    ensures PreviewOf(lines, maxChars) <= Strip(lines[k])
  {
    if k > 0 {
      assert IsFirstQualifying(lines[1..], k - 1) by {
        forall j | 0 <= j < k - 1 ensures !Qualifies(lines[1..][j]) {
          assert lines[1..][j] == lines[j + 1];
        }
      }
      PreviewIsFirstQualifyingLine(lines[1..], k - 1, maxChars);
    }
  }

  /** When no line qualifies, the preview is "" whatever `maxChars` is. */
  lemma {:induction false} PreviewEmptyWithoutQualifyingLine(lines: seq<string>, maxChars: int)
    requires forall j :: 0 <= j < |lines| ==> !Qualifies(lines[j])
    ensures PreviewOf(lines, maxChars) == ""
  {
    if lines != [] {
      assert forall j :: 0 <= j < |lines| - 1 ==> lines[1..][j] == lines[j + 1];
      PreviewEmptyWithoutQualifyingLine(lines[1..], maxChars);
    }
  }

  /**
   * With a positive `maxChars`, the preview is "" exactly when no line
   * qualifies; otherwise some line is the first qualifying one and the
   * preview is a prefix of it.
   */
  lemma {:induction false} PreviewEmptyIffNoQualifyingLine(lines: seq<string>, maxChars: int)
    requires 0 < maxChars
    ensures PreviewOf(lines, maxChars) == "" <==> forall j :: 0 <= j < |lines| ==> !Qualifies(lines[j])
    ensures PreviewOf(lines, maxChars) != "" ==>
      exists k :: IsFirstQualifying(lines, k) && PreviewOf(lines, maxChars) <= Strip(lines[k])
  {
    if lines != [] {
      var tail := lines[1..];
      assert forall j :: 0 <= j < |tail| ==> tail[j] == lines[j + 1];
      if Qualifies(lines[0]) {
        assert IsFirstQualifying(lines, 0);
      } else {
        PreviewEmptyIffNoQualifyingLine(tail, maxChars);
        if PreviewOf(tail, maxChars) != "" {
          var k :| IsFirstQualifying(tail, k) && PreviewOf(tail, maxChars) <= Strip(tail[k]);
          assert IsFirstQualifying(lines, k + 1) by {
            forall j | 0 <= j < k + 1 ensures !Qualifies(lines[j]) {
              if j > 0 { assert lines[j] == tail[j - 1]; }
            }
          }
        } else {
          forall j | 0 <= j < |lines| ensures !Qualifies(lines[j]) {
            if j > 0 { assert lines[j] == tail[j - 1]; }
          }
        }
      }
    }
  }
}
