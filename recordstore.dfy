/** The CSV record store as the index sees it: the whole file as one string, read a
    line at a time with `fseek` + `fgets`. A record is identified by the byte offset
    at which its line starts. */
module RecordStore {
  import opened Wrappers

  /** The position just past the line that starts at `off`: after its line feed, or
      the end of the file when the last line has none. */
  function LineEnd(csv: string, off: nat): (e: nat)
    requires off <= |csv|
    ensures off <= e <= |csv|
    ensures off < |csv| ==> off < e
    ensures forall i :: off <= i < e - 1 ==> csv[i] != '\n'
    ensures off < e < |csv| ==> csv[e - 1] == '\n'
    decreases |csv| - off
  {
    if off == |csv| then off
    else if csv[off] == '\n' then off + 1
    else LineEnd(csv, off + 1)
  }

  /** `fseek(csv, off, SEEK_SET)` followed by `fgets`: the line that starts at `off`,
      its line feed included. `None` when the seek fails (a negative offset) or the
      read meets the end of the file. */
  function ReadLine(csv: string, off: int): (r: Option<string>)
    ensures r.Some? <==> 0 <= off < |csv|
    ensures r.Some? ==> 0 < |r.value| && off + |r.value| <= |csv| && r.value == csv[off..off + |r.value|]
    ensures r.Some? ==> forall i :: 0 <= i < |r.value| - 1 ==> r.value[i] != '\n'
    ensures r.Some? && off + |r.value| < |csv| ==> r.value[|r.value| - 1] == '\n'
  {
    if 0 <= off < |csv| then Some(csv[off..LineEnd(csv, off)]) else None
  }
}
