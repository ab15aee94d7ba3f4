/**
 * `_views_bulk_operations_sort_operations_by_label`
 * (views_bulk_operations.module): the comparison `uasort` uses to order
 * operations by label, `strcasecmp($a['label'], $b['label'])`.
 *
 * `strcasecmp` compares byte by byte after ASCII lower-casing and returns
 * the difference of the first pair of lowered bytes that differ or, when
 * one label is a prefix of the other, the difference of the lengths.
 */
module BulkOperations {
  import opened Php

  /**
   * An operation as the sort sees it: only its label, `$operation['label']`.
   * The field is called `title` because `label` is a Dafny keyword.
   */
  datatype Operation = Operation(title: string)

  /** `strcasecmp` on byte strings. */
  function StrCaseCmp(a: string, b: string): int {
    if a == [] || b == [] then |a| - |b|
    else if Lower(a[0]) != Lower(b[0]) then Lower(a[0]) as int - Lower(b[0]) as int
    else StrCaseCmp(a[1..], b[1..])
  }

  /** The sort callback. */
  function SortOperationsByLabel(a: Operation, b: Operation): int {
    StrCaseCmp(a.title, b.title)
  }

  /** Swapping the arguments negates the result. */
  lemma {:induction false} StrCaseCmpAntisymmetric(a: string, b: string)
    ensures StrCaseCmp(a, b) == -StrCaseCmp(b, a)
  {
    if a != [] && b != [] && Lower(a[0]) == Lower(b[0]) {
      StrCaseCmpAntisymmetric(a[1..], b[1..]);
    }
  }

  /** Two labels compare equal exactly when they are equal after lower-casing. */
  lemma {:induction false} StrCaseCmpZero(a: string, b: string)
    ensures StrCaseCmp(a, b) == 0 <==> ToLower(a) == ToLower(b)
  {
    if a != [] && b != [] {
      assert ToLower(a) == [Lower(a[0])] + ToLower(a[1..]);
      assert ToLower(b) == [Lower(b[0])] + ToLower(b[1..]);
      if Lower(a[0]) == Lower(b[0]) {
        StrCaseCmpZero(a[1..], b[1..]);
      } else {
        assert ToLower(a)[0] != ToLower(b)[0];
      }
    }
  }

  /** "Sorts before" is transitive, so `uasort` is given a consistent order. */
  lemma {:induction false} StrCaseCmpTransitive(a: string, b: string, c: string)
    requires StrCaseCmp(a, b) < 0 && StrCaseCmp(b, c) < 0
    ensures StrCaseCmp(a, c) < 0
  {
    if a != [] {
      assert b != [] && c != [];
      if Lower(a[0]) == Lower(b[0]) == Lower(c[0]) {
        StrCaseCmpTransitive(a[1..], b[1..], c[1..]);
      }
    }
  }

  /** Labels that differ only in case sort as equal; the order ignores case. */
  lemma {:induction false} StrCaseCmpIgnoresCase(a: string, a': string, b: string)
    requires ToLower(a) == ToLower(a')
    ensures StrCaseCmp(a, b) == StrCaseCmp(a', b)
  {
    if a != [] && a' != [] {
      assert Lower(a[0]) == ToLower(a)[0] == ToLower(a')[0] == Lower(a'[0]);
      assert ToLower(a[1..]) == ToLower(a)[1..] == ToLower(a')[1..] == ToLower(a'[1..]);
      if b != [] {
        StrCaseCmpIgnoresCase(a[1..], a'[1..], b[1..]);
      }
    }
  }

  /** The sort callback orders operations by label, ignoring case: a total preorder. */
  lemma SortOperationsByLabelIsPreorder(a: Operation, b: Operation, c: Operation)
    ensures SortOperationsByLabel(a, b) == -SortOperationsByLabel(b, a)
    ensures SortOperationsByLabel(a, b) == 0 <==> ToLower(a.title) == ToLower(b.title)
    ensures SortOperationsByLabel(a, b) < 0 && SortOperationsByLabel(b, c) < 0 ==> SortOperationsByLabel(a, c) < 0
  {
    StrCaseCmpAntisymmetric(a.title, b.title);
    StrCaseCmpZero(a.title, b.title);
    if SortOperationsByLabel(a, b) < 0 && SortOperationsByLabel(b, c) < 0 {
      StrCaseCmpTransitive(a.title, b.title, c.title);
    }
  }
}
