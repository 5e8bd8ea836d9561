/**
 * An abstraction of the host game's item stacks, as far as the limit builder
 * looks at them: whether a stack is empty, and whether its item carries the
 * accessory (bauble) capability.
 */
module Stacks {
  import SeqLemmas

  /** An item type; `bauble` records whether the item implements the bauble capability. */
  datatype Item = Item(bauble: bool)

  /**
   * A stack object. Host stacks have no value equality, so every stack
   * carries `ref`, its object identity: two stacks with different refs are
   * different map keys even when they hold the same item. A ref names one
   * object, so the ref determines the other two fields: the model never
   * builds two stacks with the same ref and different contents, and equality
   * of stacks is then equality of refs. `empty` stands for the host's own
   * emptiness test.
   */
  datatype ItemStack = ItemStack(ref: nat, item: Item, empty: bool)

  predicate IsEmpty(s: ItemStack) { s.empty }

  predicate IsBauble(s: ItemStack) { s.item.bauble }

  predicate AllNonEmpty(xs: seq<ItemStack>)
  {
    forall i :: 0 <= i < |xs| ==> !IsEmpty(xs[i])
  }

  /** The stacks of `xs` that are not empty, in their original order. */
  function WithoutEmpty(xs: seq<ItemStack>): (r: seq<ItemStack>)
    ensures AllNonEmpty(r)
    ensures |r| <= |xs|
    ensures forall x :: multiset(r)[x] == if IsEmpty(x) then 0 else multiset(xs)[x]
    ensures forall x :: x in r <==> x in xs && !IsEmpty(x)
  {
    if xs == [] then []
    else
      assert xs == [xs[0]] + xs[1..];
      if IsEmpty(xs[0]) then WithoutEmpty(xs[1..])
      else [xs[0]] + WithoutEmpty(xs[1..])
  }

  /** Filtering distributes over concatenation, so the order of the kept stacks is the input order. */
  lemma {:induction false} WithoutEmptyAppend(a: seq<ItemStack>, b: seq<ItemStack>)
    ensures WithoutEmpty(a + b) == WithoutEmpty(a) + WithoutEmpty(b)
  {
    if a == [] {
      assert a + b == b;
    } else {
      SeqLemmas.ConsAppend(a, b);
      WithoutEmptyAppend(a[1..], b);
      if !IsEmpty(a[0]) {
        SeqLemmas.AppendAssoc([a[0]], WithoutEmpty(a[1..]), WithoutEmpty(b));
      }
    }
  }

  /** A list that holds no empty stack passes through the filter unchanged. */
  lemma {:induction false} WithoutEmptyKeepsNonEmpty(xs: seq<ItemStack>)
    requires AllNonEmpty(xs)
    ensures WithoutEmpty(xs) == xs
  {
    if xs != [] {
      WithoutEmptyKeepsNonEmpty(xs[1..]);
      assert xs == [xs[0]] + xs[1..];
    }
  }
}
