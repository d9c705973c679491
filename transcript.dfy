/**
 * The text `get_transcript` returns (main.py:36-38): the transcript entries'
 * texts joined with single spaces. Fetching the entries is a remote call and is
 * not part of this model; the entries arrive as a parameter.
 */
module Transcript {
  import opened PyStrings

  /** `' '.join([entry['text'] for entry in transcript_list])`. */
  function TranscriptText(entries: seq<string>): string
  {
    Join(entries, " ")
  }

  /** The join loses nothing: entries without spaces are read back by splitting at the spaces. */
  lemma TranscriptEntriesRecoverable(entries: seq<string>)
    requires |entries| >= 1
    requires forall k, j :: 0 <= k < |entries| && 0 <= j < |entries[k]| ==> entries[k][j] != ' '
    ensures Split(TranscriptText(entries), " ") == entries
  {
    JoinSplit(entries, ' ');
  }

  /** The entries `Hello` and `world` make the text `Hello world`. */
  lemma TranscriptExample()
    ensures TranscriptText(["Hello", "world"]) == "Hello world"
  {
    assert ["Hello", "world"][1..] == ["world"];
  }
}
