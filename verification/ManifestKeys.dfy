/** Keys, transfer ids and states shared by the two manifest kinds. */
module ManifestKeys {
  import opened Common
  import opened TextCodec
  import opened ManifestText

  datatype ManifestState = Created | Transferring | Failed | Committed

  function StateName(s: ManifestState): string {
    match s
    case Created => "created"
    case Transferring => "transferring"
    case Failed => "failed"
    case Committed => "committed"
  }

  function ParseState(text: string): Result<ManifestState> {
    if text == "created" then Ok(Created)
    else if text == "transferring" then Ok(Transferring)
    else if text == "failed" then Ok(Failed)
    else if text == "committed" then Ok(Committed)
    else Err("invalid manifest state")
  }

  lemma StateRoundTrip(s: ManifestState)
    ensures ParseState(StateName(s)) == Ok(s) && Plain(StateName(s))
  {
  }

  predicate IsIdChar(c: char) {
    'a' <= c <= 'z' || 'A' <= c <= 'Z' || '0' <= c <= '9' || c == '.' || c == '_' || c == '-'
  }

  predicate IsValidTransferId(id: string) {
    0 < |id| <= 128 && forall c :: c in id ==> IsIdChar(c)
  }

  lemma IdPrintable(id: string)
    requires IsValidTransferId(id)
    ensures Printable(id)
  {
  }

  /** Every key has its own rank, so keys with different ranks differ. */
  function Rank(key: string): int {
    if key == "manifest_version" then 0
    else if key == "transfer_id" then 1
    else if key == "output_path_hex" then 2
    else if key == "temp_path_hex" then 3
    else if key == "total_size" then 4
    else if key == "chunk_size" then 5
    else if key == "checksum_algorithm" then 6
    else if key == "created_at_unix_ns" then 7
    else if key == "updated_at_unix_ns" then 8
    else if key == "state" then 9
    else if key == "completed_ranges" then 10
    else if key == "verified_chunks" then 11
    else if key == "source_path_hex" then 12
    else if key == "target_path_hex" then 13
    else if key == CRC_KEY then 14
    else -1
  }

  lemma SameLengthKeys()
    ensures "manifest_version"[0] != "completed_ranges"[0]
    ensures "output_path_hex"[0] != "verified_chunks"[0]
    ensures "total_size"[0] != "chunk_size"[0]
    ensures "checksum_algorithm"[1] != "created_at_unix_ns"[1]
    ensures "checksum_algorithm"[0] != "updated_at_unix_ns"[0]
    ensures "created_at_unix_ns"[0] != "updated_at_unix_ns"[0]
    ensures "source_path_hex"[0] != "output_path_hex"[0]
    ensures "source_path_hex"[0] != "verified_chunks"[0]
    ensures "target_path_hex"[0] != "output_path_hex"[0]
    ensures "target_path_hex"[0] != "verified_chunks"[0]
    ensures "target_path_hex"[0] != "source_path_hex"[0]
  {
  }

  lemma HeaderRanks()
    ensures Rank("manifest_version") == 0 && Rank("transfer_id") == 1 && Rank("output_path_hex") == 2
    ensures Rank("temp_path_hex") == 3 && Rank("total_size") == 4 && Rank("chunk_size") == 5
    ensures Rank("checksum_algorithm") == 6 && Rank("created_at_unix_ns") == 7
  {
    SameLengthKeys();
  }

  lemma ProgressRanks()
    ensures Rank("updated_at_unix_ns") == 8 && Rank("state") == 9
    ensures Rank("completed_ranges") == 10 && Rank("verified_chunks") == 11
  {
    SameLengthKeys();
  }

  lemma DownloadRanks()
    ensures Rank("source_path_hex") == 12 && Rank("target_path_hex") == 13 && Rank(CRC_KEY) == 14
  {
    SameLengthKeys();
  }

  /** A key the line format can carry. */
  ghost predicate KeyChars(key: string) {
    key != "" && '=' !in key && '\n' !in key
  }

  lemma IdentityKeys()
    ensures KeyChars("manifest_version") && KeyChars("transfer_id") && KeyChars("temp_path_hex")
  {
  }

  lemma SizeKeys()
    ensures KeyChars("total_size") && KeyChars("chunk_size") && KeyChars("checksum_algorithm")
  {
  }

  lemma TimeKeys()
    ensures KeyChars("created_at_unix_ns") && KeyChars("updated_at_unix_ns") && KeyChars("state")
  {
  }

  lemma ProgressKeys()
    ensures KeyChars("completed_ranges") && KeyChars("verified_chunks")
  {
  }

  lemma PathKeys()
    ensures KeyChars("output_path_hex") && KeyChars("source_path_hex") && KeyChars("target_path_hex")
  {
  }
}
