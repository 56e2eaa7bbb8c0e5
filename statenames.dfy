/**
 * Human-readable names of the status codes (Phat_StateToString).
 *
 * The source's table stops after PartitionOverlapped (value 32) although the
 * enumeration goes on to NeedBigLBA (value 34), so the values 33 and 34 index
 * past the end of the table. AsWrittenName models the lookup as written, with
 * None for an out-of-bounds read; StateName is the corrected lookup over a
 * table that covers every state.
 */
module StateNames {
  import opened Common

  const INVALID_STATE_NUMBER: string := "InvalidStateNumber"

  /** The source's table, entry for entry. */
  const AS_WRITTEN_TABLE: seq<string> := [
    "OK",
    "Invalid parameter",
    "Internal error",
    "Driver error",
    "Read fail",
    "Write fail",
    "Partition table error",
    "Filesystem is not FAT",
    "FAT error",
    "Filesystem error",
    "File not found",
    "Directory not found",
    "Is a directory",
    "Not a directory",
    "Invalid path",
    "End of directory",
    "End of FAT chain",
    "End of file",
    "Not enough space",
    "Directory is not empty",
    "File is already exists",
    "Directory is already exists",
    "The file is opened in RO mode",
    "The name is too long",
    "The name contains invalid characters",
    "Can not format the partition because parameters are insane",
    "The current partition formatting approach is suboptimal, resulting in significant space wastage",
    "The disk is already initialized",
    "No free partitions to allocate",
    "The partition is too small for FAT FS",
    "The first sector does NOT appear to be a MBR",
    "The disk is using GPT, currently not supported",
    "The partition overlaps an existing one"
  ]

  /**
   * The lookup as written: values at or above LastState give the fallback
   * text, every other value indexes the table; None stands for a read past
   * the table's end.
   */
  function AsWrittenName(s: nat): (r: Option<string>)
    ensures s >= LAST_STATE ==> r == Some(INVALID_STATE_NUMBER)
    ensures s < LAST_STATE ==> (r.Some? <==> s < |AS_WRITTEN_TABLE|)
  {
    if s >= LAST_STATE then Some(INVALID_STATE_NUMBER)
    else if s < |AS_WRITTEN_TABLE| then Some(AS_WRITTEN_TABLE[s])
    else None
  }

  /** Two real states have no entry in the source's table. */
  lemma AsWrittenTableTooShort()
    ensures |AS_WRITTEN_TABLE| == 33
    ensures AsWrittenName(StateValue(PartitionIndexOutOfBound)) == None
    ensures AsWrittenName(StateValue(NeedBigLBA)) == None
  {
  }

  /** The table extended with one text per remaining state. */
  const TABLE: seq<string> := AS_WRITTEN_TABLE + [
    "Invalid partition index",
    "Device requires 64-bit LBA addressing"
  ]

  /** The corrected lookup over a table that covers every state. */
  function StateName(s: nat): string
  {
    if s >= LAST_STATE then INVALID_STATE_NUMBER else TABLE[s]
  }

  /**
   * Every status the engine can return has its own in-bounds entry, which
   * agrees with the source's table wherever that table reaches.
   */
  lemma StateNameTotal(a: PhatState)
    ensures StateValue(a) < |TABLE| && StateName(StateValue(a)) == TABLE[StateValue(a)]
    ensures StateName(StateValue(a)) != INVALID_STATE_NUMBER
    ensures StateValue(a) < |AS_WRITTEN_TABLE| ==> AsWrittenName(StateValue(a)) == Some(StateName(StateValue(a)))
  {
    var v := StateValue(a);
    FallbackNotInTable(v);
  }

  /** No entry of the table is the fallback text: their lengths differ. */
  lemma FallbackNotInTable(v: nat)
    requires v < |TABLE|
    ensures |TABLE[v]| != |INVALID_STATE_NUMBER|
  {
  }
}
