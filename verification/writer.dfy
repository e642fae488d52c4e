/** The writer: merged entries back to the three-line text format, and the path of
    the output file. */
module Writer {
  import opened Entries

  function MsgidLine(msgid: string): string {
    "msgid \"" + msgid + "\""
  }

  function MsgstrLine(msgstr: string): string {
    "msgstr \"" + msgstr + "\""
  }

  /** The mapMulti over the merged entries: three lines per entry, in entry order —
      the raw comment, then `msgid "<msgid>"`, then `msgstr "<msgstr>"`. */
  function Serialize(es: seq<Entry>): (lines: seq<string>)
    ensures |lines| == 3 * |es|
    ensures forall i :: 0 <= i < |es| ==>
              && lines[3 * i] == es[i].comment
              && lines[3 * i + 1] == MsgidLine(es[i].msgid)
              && lines[3 * i + 2] == MsgstrLine(es[i].msgstr)
  {
    if es == [] then []
    else
      var rest := Serialize(es[1..]);
      var lines := [es[0].comment, MsgidLine(es[0].msgid), MsgstrLine(es[0].msgstr)] + rest;
      assert forall i :: 1 <= i < |es| ==> es[i] == es[1..][i - 1] && 3 * i == 3 * (i - 1) + 3;
      lines
  }

  /** The fixed name of the output file. */
  const FileName := "output.po"

  function EndsWithSeparator(dir: string, separator: char): bool {
    |dir| > 0 && dir[|dir| - 1] == separator
  }

  /** outputPath + (outputPath.endsWith(separator) ? "" : separator) + "output.po":
      the path starts with the directory argument, ends with a separator and the
      file name, and the separator is inserted exactly when the directory does not
      already end with one, so a trailing separator is never doubled. */
  function OutputPath(dir: string, separator: char): (path: string)
    ensures |dir| + |FileName| <= |path| && |FileName| < |path|
    ensures path[..|dir|] == dir
    ensures path[|path| - |FileName| - 1..] == [separator] + FileName
    ensures |path| == |dir| + |FileName| + 1 <==> !EndsWithSeparator(dir, separator)
    ensures |path| == |dir| + |FileName| <==> EndsWithSeparator(dir, separator)
  {
    dir + (if EndsWithSeparator(dir, separator) then "" else [separator]) + FileName
  }
}
