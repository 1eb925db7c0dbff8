/** Sizes the whole engine shares (sql_common.h:68, sql_common.h:592-605), and words every module uses. */
module Common {
  const PAGE_SIZE := 8192
  const PAGE_TRAILER := 8
  const PAGE_USABLE := PAGE_SIZE - PAGE_TRAILER
  const MAX_COLS := 16

  datatype Option<T> = None | Some(value: T)

  datatype Result<T, E> = Ok(value: T) | Err(error: E)

  ghost predicate Distinct(s: seq<int>) {
    forall i, j :: 0 <= i < j < |s| ==> s[i] != s[j]
  }

  lemma DistinctConcat(a: seq<int>, b: seq<int>)
    requires Distinct(a) && Distinct(b) && forall x :: x in a ==> x !in b
    ensures Distinct(a + b)
  {
    var s := a + b;
    forall i, j | 0 <= i < j < |s| ensures s[i] != s[j] {
      if i < |a| <= j {
        assert s[i] in a && s[j] in b;
      }
    }
  }
}
