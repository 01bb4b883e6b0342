/** What the rest of the project shares: two result types, what counts as white space, and picking items in order. */
module Wrappers {
  datatype Option<+T> = None | Some(value: T)

  datatype Result<+T, +E> = Ok(value: T) | Err(error: E)

  /** What Python's `strip` takes off: Unicode's white space and the four ASCII separators. */
  predicate IsSpace(c: char) {
    '\U{09}' <= c <= '\U{0D}' || '\U{1C}' <= c <= ' ' || c == '\U{85}' || c == '\U{A0}' || c == '\U{1680}'
    || '\U{2000}' <= c <= '\U{200A}' || c == '\U{2028}' || c == '\U{2029}' || c == '\U{202F}' || c == '\U{205F}'
    || c == '\U{3000}'
  }

  /** The chosen items, in the order they are listed. */
  ghost function Among<T>(items: seq<T>, chosen: set<T>): seq<T> {
    if items == [] then []
    else
      Among(items[..|items| - 1], chosen) +
      (if items[|items| - 1] in chosen then [items[|items| - 1]] else [])
  }

  lemma {:induction false} AmongHolds<T>(items: seq<T>, chosen: set<T>)
    ensures forall x :: x in Among(items, chosen) <==> x in items && x in chosen
  {
    if items != [] {
      var shorter, last := items[..|items| - 1], items[|items| - 1];
      AmongHolds(shorter, chosen);
      assert items == shorter + [last];
    }
  }

  lemma AmongOneMore<T>(items: seq<T>, chosen: set<T>, i: nat)
    requires i < |items|
    ensures Among(items[..i + 1], chosen) ==
            Among(items[..i], chosen) + (if items[i] in chosen then [items[i]] else [])
  {
    assert items[..i + 1][..i] == items[..i];
  }

  lemma NoneAmong<T>(items: seq<T>, chosen: set<T>)
    ensures Among(items, chosen) == [] <==> forall x :: x in items ==> x !in chosen
  {
    AmongHolds(items, chosen);
    if x :| x in items && x in chosen {
      assert x in Among(items, chosen);
    }
    if Among(items, chosen) != [] {
      assert Among(items, chosen)[0] in Among(items, chosen);
    }
  }
}
