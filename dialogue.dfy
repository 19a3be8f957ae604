/** A transcript record: who speaks, and what is said. */
module Dialogue {

  /** DialogueEntry of the editor. The editor only ever mutates an entry through its slot in
      the entry list, and undo snapshots copy entries, so an entry is a value here. */
  datatype DialogueEntry = DialogueEntry(speaker: string, text: string)
}
