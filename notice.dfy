/** The notice file's bytes, less a leading UTF-8 byte-order mark. */
module Notice {
  import opened Bytes

  predicate StartsWithBom(s: Bytes)
  {
    |s| >= 3 && s[..3] == BOM
  }

  /** Content that begins with the mark loses exactly those three bytes;
      other content is kept as it is. */
  function StripBom(content: Bytes): (r: Bytes)
    ensures StartsWithBom(content) ==> content == BOM + r
    ensures !StartsWithBom(content) ==> r == content
  {
    if StartsWithBom(content) then content[3..] else content
  }

  /** The notice loaded from the file's bytes. A file shorter than the mark
      leaves the stream failed after the 3-byte read: the seek back to the
      start is then ignored and nothing more is read, so the notice is
      empty. */
  function LoadedNotice(file: Bytes): (r: Bytes)
    ensures |file| < 3 ==> r == []
    ensures |file| >= 3 && StartsWithBom(file) ==> file == BOM + r
    ensures |file| >= 3 && !StartsWithBom(file) ==> r == file
  {
    if |file| < 3 then [] else StripBom(file)
  }

  /** Saving a text with a mark and loading it gives back the text. */
  lemma MarkedFileLoaded(text: Bytes)
    ensures LoadedNotice(BOM + text) == text
  {
  }

  /** A mark is removed once: a doubly marked file keeps its second mark. */
  lemma MarkStrippedOnce(text: Bytes)
    ensures LoadedNotice(BOM + BOM + text) == BOM + text
  {
  }
}
