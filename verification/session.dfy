/**
 * The state the page holds — the list of raw file names and the two text
 * parameters of the export — and the two operations that change the list:
 * ingesting a folder selection and deleting one entry.
 */
module Session {
  import opened Base
  import opened Arrays

  /**
   * The page state: the raw file names in selection order (duplicates
   * allowed), the prefix, and the removal pattern's source text.
   */
  datatype Session = Session(files: seq<string>, prefix: string, removePattern: string)

  /** The state before any interaction: no files, empty prefix, empty pattern. */
  const Initial: Session := Session([], "", "")

  /** One file handle of a picker selection; only its `name` is read. */
  datatype PickedFile = PickedFile(name: string)

  /** The names of the selected files, pushed one by one in selection order. */
  function NamesOf(picked: seq<PickedFile>): (names: seq<string>)
    ensures |names| == |picked|
    ensures forall i :: 0 <= i < |picked| ==> names[i] == picked[i].name
    decreases |picked|
  {
    if |picked| == 0 then []
    else NamesOf(picked[..|picked| - 1]) + [picked[|picked| - 1].name]
  }

  /**
   * Handling a folder selection: a null selection leaves the state alone;
   * otherwise the list is replaced by the selected names, in order, with
   * nothing filtered out. The text parameters are untouched.
   */
  function Upload(s: Session, selection: Option<seq<PickedFile>>): (r: Session)
    ensures selection.None? ==> r == s
    ensures selection.Some? ==>
              |r.files| == |selection.value|
              && forall i :: 0 <= i < |r.files| ==> r.files[i] == selection.value[i].name
    ensures r.prefix == s.prefix && r.removePattern == s.removePattern
  {
    match selection
    case None => s
    case Some(picked) =>
      s.(files := NamesOf(picked))
  }

  /** An upload replaces the list rather than adding to it: only the last selection counts. */
  lemma UploadReplaces(s: Session, first: Option<seq<PickedFile>>, picked: seq<PickedFile>)
    ensures Upload(Upload(s, first), Some(picked)) == Upload(s, Some(picked))
  {
  }

  /**
   * Hidden and extension-less names are kept like any other: selecting
   * "a.txt", "b.txt" and ".hidden" lists all three, in that order.
   */
  lemma UploadKeepsHiddenNames(s: Session)
    ensures Upload(s, Some([PickedFile("a.txt"), PickedFile("b.txt"), PickedFile(".hidden")])).files
            == ["a.txt", "b.txt", ".hidden"]
  {
  }

  /** The delete button: the list loses position `index`; the text parameters are untouched. */
  function RemoveFile(s: Session, index: int): (r: Session)
    ensures 0 <= index < |s.files| ==> r.files == s.files[..index] + s.files[index + 1..]
    ensures !(0 <= index < |s.files|) ==> r == s
    ensures r.prefix == s.prefix && r.removePattern == s.removePattern
  {
    s.(files := RemoveAt(s.files, index))
  }
}
