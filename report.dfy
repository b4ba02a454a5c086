/** The notes TreeDiffs returns, without their text formatting. */
module Report {
  import opened FileInfo

  datatype Note =
    | CollectFailed(dir: string, error: string)  // the walk of `dir` failed with `error`
    | UniqueItems(dir: string, items: seq<Info>) // entries found only under `dir`, in listing order
}
