/** The editor's rich-text value: blocks of inline children, and the
    normaliser that fills in what the editor needs before it can show a
    stored description: a key on every block and child, a block style,
    mark definitions, and the text and marks of spans. */
module RichText {
  import opened Options
  import Decimal

  /** Fields of a block or child that the normaliser only carries along; an
      object spread keeps them as they are. */
  type Fields = map<string, string>

  /** An inline child. A span has a text and marks; any other inline
      object has whatever fields it has, kept in `text`, `marks` and `rest`. */
  datatype Child = Child(
    key: Option<string>,
    typ: string,
    text: Option<string>,
    marks: Option<seq<string>>,
    rest: Fields)

  datatype Block = Block(
    key: Option<string>,
    typ: string,
    style: Option<string>,
    markDefs: Option<seq<Fields>>,
    children: Option<seq<Child>>,
    rest: Fields)

  // ---------------------------------------------------------------------
  // The key supply

  /** The key handed out by the supply when it stands at `n`. Every key the
      supply hands out is a non-empty string. */
  function FreshKey(n: nat): (k: string)
    ensures |k| >= 2 && k[0] == 'k'
  {
    "k" + Decimal.FromNat(n)
  }

  /** Different positions of the supply hand out different keys. */
  lemma FreshKeyInjective(a: nat, b: nat)
    requires FreshKey(a) == FreshKey(b)
    ensures a == b
  {
    assert FreshKey(a)[1..] == Decimal.FromNat(a);
    assert FreshKey(b)[1..] == Decimal.FromNat(b);
    Decimal.FromNatInjective(a, b);
  }

  /** `key || nanoid()`: a present, non-empty key is kept and the supply
      does not move; otherwise the supply hands out its next key. */
  function TakeKey(key: Option<string>, next: nat): (string, nat)
  {
    if Truthy(key) then (key.value, next) else (FreshKey(next), next + 1)
  }

  // ---------------------------------------------------------------------
  // The normaliser

  /** One child: a span gets its key, the type "span", a text ("" when
      missing or empty) and marks (`[]` when missing); any other child only
      gets its key. */
  function NormalizeChild(c: Child, next: nat): (Child, nat)
  {
    var (k, n) := TakeKey(c.key, next);
    if c.typ == "span" then
      (Child(Some(k), "span", Some(StringOr(c.text, "")), Some(c.marks.GetOr([])), c.rest), n)
    else
      (c.(key := Some(k)), n)
  }

  /** The children of a block, in order, threading the key supply. */
  function NormalizeChildren(cs: seq<Child>, next: nat): (seq<Child>, nat)
  {
    if cs == [] then ([], next)
    else
      var (c, n1) := NormalizeChild(cs[0], next);
      var (tail, n2) := NormalizeChildren(cs[1..], n1);
      ([c] + tail, n2)
  }

  /** One block: its key first, then the type "block", a style ("normal"
      when missing or empty), mark definitions (`[]` when missing) and its
      children (`[]` when missing), normalised. */
  function NormalizeBlock(b: Block, next: nat): (Block, nat)
  {
    var (k, n1) := TakeKey(b.key, next);
    var (cs, n2) := NormalizeChildren(b.children.GetOr([]), n1);
    (Block(Some(k), "block", Some(StringOr(b.style, "normal")), Some(b.markDefs.GetOr([])), Some(cs), b.rest), n2)
  }

  function NormalizeBlocks(bs: seq<Block>, next: nat): (seq<Block>, nat)
  {
    if bs == [] then ([], next)
    else
      var (b, n1) := NormalizeBlock(bs[0], next);
      var (tail, n2) := NormalizeBlocks(bs[1..], n1);
      ([b] + tail, n2)
  }

  /** The one empty paragraph the editor starts from. */
  function DefaultValue(next: nat): seq<Block>
  {
    [Block(Some(FreshKey(next)), "block", Some("normal"), Some([]),
           Some([Child(Some(FreshKey(next + 1)), "span", Some(""), Some([]), map[])]), map[])]
  }

  /** `ensureKeys`: an absent or empty value becomes the default paragraph
      (block key first, then span key); otherwise every block is
      normalised. Returns the value and the new position of the supply. */
  function EnsureKeys(blocks: Option<seq<Block>>, next: nat): (seq<Block>, nat)
  {
    if blocks.None? || |blocks.value| == 0 then (DefaultValue(next), next + 2)
    else NormalizeBlocks(blocks.value, next)
  }

  // ---------------------------------------------------------------------
  // What an output block and child look like

  /** How a normalised child relates to the child it came from. */
  predicate ChildConforms(c: Child, d: Child)
  {
    && Truthy(d.key)
    && (Truthy(c.key) ==> d.key == c.key)
    && (c.typ == "span" ==>
          && d.typ == "span"
          && d.text == Some(if Truthy(c.text) then c.text.value else "")
          && d.marks == Some(if c.marks.Some? then c.marks.value else [])
          && d.rest == c.rest)
    && (c.typ != "span" ==>
          && d.typ == c.typ && d.text == c.text && d.marks == c.marks && d.rest == c.rest)
  }

  predicate ChildrenConform(cs: seq<Child>, ds: seq<Child>)
  {
    |ds| == |cs| && forall i :: 0 <= i < |cs| ==> ChildConforms(cs[i], ds[i])
  }

  /** How a normalised block relates to the block it came from. */
  predicate BlockConforms(b: Block, d: Block)
  {
    && Truthy(d.key)
    && (Truthy(b.key) ==> d.key == b.key)
    && d.typ == "block"
    && d.style == Some(if Truthy(b.style) then b.style.value else "normal")
    && d.markDefs == Some(if b.markDefs.Some? then b.markDefs.value else [])
    && d.children.Some?
    && ChildrenConform(if b.children.Some? then b.children.value else [], d.children.value)
    && d.rest == b.rest
  }

  lemma {:induction false} ChildrenShape(cs: seq<Child>, next: nat)
    ensures ChildrenConform(cs, NormalizeChildren(cs, next).0)
    decreases |cs|
  {
    if cs != [] {
      var (c, n1) := NormalizeChild(cs[0], next);
      var (tail, n2) := NormalizeChildren(cs[1..], n1);
      ChildrenShape(cs[1..], n1);
      var out := [c] + tail;
      assert NormalizeChildren(cs, next).0 == out;
      forall i | 0 <= i < |cs| ensures ChildConforms(cs[i], out[i]) {
        if i > 0 {
          assert out[i] == tail[i - 1];
          assert cs[i] == cs[1..][i - 1];
        }
      }
    }
  }

  lemma {:induction false} BlocksShape(bs: seq<Block>, next: nat)
    ensures var out := NormalizeBlocks(bs, next).0;
            |out| == |bs| && forall i :: 0 <= i < |bs| ==> BlockConforms(bs[i], out[i])
    decreases |bs|
  {
    if bs != [] {
      var (b, n1) := NormalizeBlock(bs[0], next);
      var (tail, n2) := NormalizeBlocks(bs[1..], n1);
      BlocksShape(bs[1..], n1);
      ChildrenShape(bs[0].children.GetOr([]), TakeKey(bs[0].key, next).1);
      var out := [b] + tail;
      assert NormalizeBlocks(bs, next).0 == out;
      forall i | 0 <= i < |bs| ensures BlockConforms(bs[i], out[i]) {
        if i > 0 {
          assert out[i] == tail[i - 1];
          assert bs[i] == bs[1..][i - 1];
        }
      }
    }
  }

  /** A non-empty value keeps its number and order of blocks, each block
      its number and order of children, and every block and child conforms
      to the one it came from: defaults only where a field is missing (or,
      for key, style and text, empty), existing keys kept, non-span
      children unchanged apart from their key. */
  lemma EnsureKeysShape(blocks: seq<Block>, next: nat)
    requires |blocks| > 0
    ensures var out := EnsureKeys(Some(blocks), next).0;
            |out| == |blocks| && forall i :: 0 <= i < |blocks| ==> BlockConforms(blocks[i], out[i])
  {
    BlocksShape(blocks, next);
  }

  /** An absent or empty value becomes exactly one block of style "normal"
      with no mark definitions, holding one empty span without marks; the
      block and the span get two different fresh keys. */
  lemma EnsureKeysEmpty(blocks: Option<seq<Block>>, next: nat)
    requires blocks.None? || blocks.value == []
    ensures var (out, n) := EnsureKeys(blocks, next);
            && |out| == 1 && n == next + 2
            && out[0].typ == "block" && out[0].style == Some("normal") && out[0].markDefs == Some([])
            && out[0].children.Some? && |out[0].children.value| == 1
            && var span := out[0].children.value[0];
               && span.typ == "span" && span.text == Some("") && span.marks == Some([])
               && out[0].key == Some(FreshKey(next)) && span.key == Some(FreshKey(next + 1))
               && out[0].key != span.key
  {
    if FreshKey(next) == FreshKey(next + 1) {
      FreshKeyInjective(next, next + 1);
    }
  }

  // ---------------------------------------------------------------------
  // Keys

  /** The keys of the children, in order. */
  function ChildKeys(cs: seq<Child>): seq<Option<string>>
  {
    seq(|cs|, i requires 0 <= i < |cs| => cs[i].key)
  }

  /** Every key of a value, in the order the normaliser visits them: each
      block's key, then its children's keys. */
  function Keys(bs: seq<Block>): seq<Option<string>>
  {
    if bs == [] then []
    else [bs[0].key] + ChildKeys(bs[0].children.GetOr([])) + Keys(bs[1..])
  }

  /** How many keys of `ks` are missing or empty. */
  function Missing(ks: seq<Option<string>>): nat
  {
    if ks == [] then 0 else (if Truthy(ks[0]) then 0 else 1) + Missing(ks[1..])
  }

  /** Keys as a supply starting at `next` fills them in, one at a time from
      the left. */
  function Assign(ks: seq<Option<string>>, next: nat): seq<Option<string>>
  {
    if ks == [] then []
    else
      var (k, n) := TakeKey(ks[0], next);
      [Some(k)] + Assign(ks[1..], n)
  }

  lemma {:induction false} AssignAppend(a: seq<Option<string>>, b: seq<Option<string>>, next: nat)
    ensures Assign(a + b, next) == Assign(a, next) + Assign(b, next + Missing(a))
    ensures Missing(a + b) == Missing(a) + Missing(b)
    decreases |a|
  {
    if a != [] {
      assert (a + b)[0] == a[0];
      assert (a + b)[1..] == a[1..] + b;
      AssignAppend(a[1..], b, TakeKey(a[0], next).1);
    } else {
      assert a + b == b;
    }
  }

  lemma {:induction false} ChildrenKeys(cs: seq<Child>, next: nat)
    ensures ChildKeys(NormalizeChildren(cs, next).0) == Assign(ChildKeys(cs), next)
    ensures NormalizeChildren(cs, next).1 == next + Missing(ChildKeys(cs))
    decreases |cs|
  {
    if cs != [] {
      var n1 := NormalizeChild(cs[0], next).1;
      ChildrenKeys(cs[1..], n1);
      var ks := ChildKeys(cs);
      assert ks[0] == cs[0].key;
      assert ks[1..] == ChildKeys(cs[1..]);
      var out := NormalizeChildren(cs, next).0;
      assert ChildKeys(out) == [out[0].key] + ChildKeys(out[1..]);
    }
  }

  lemma {:induction false} BlocksKeys(bs: seq<Block>, next: nat)
    ensures Keys(NormalizeBlocks(bs, next).0) == Assign(Keys(bs), next)
    ensures NormalizeBlocks(bs, next).1 == next + Missing(Keys(bs))
    decreases |bs|
  {
    if bs != [] {
      var (k, n1) := TakeKey(bs[0].key, next);
      var cs := bs[0].children.GetOr([]);
      var n2 := NormalizeChildren(cs, n1).1;
      ChildrenKeys(cs, n1);
      BlocksKeys(bs[1..], n2);
      var head := [bs[0].key] + ChildKeys(cs);
      assert Keys(bs) == head + Keys(bs[1..]);
      AssignAppend(head, Keys(bs[1..]), next);
      AssignAppend([bs[0].key], ChildKeys(cs), next);
      assert Assign([bs[0].key], next) == [Some(k)];
      assert Missing([bs[0].key]) == if Truthy(bs[0].key) then 0 else 1;
    }
  }

  /** The keys of a normalised value are exactly the input's keys with the
      missing or empty ones filled in by the supply, and the supply moves on
      by the number of keys it filled in. */
  lemma EnsureKeysKeys(blocks: seq<Block>, next: nat)
    requires |blocks| > 0
    ensures Keys(EnsureKeys(Some(blocks), next).0) == Assign(Keys(blocks), next)
    ensures EnsureKeys(Some(blocks), next).1 == next + Missing(Keys(blocks))
  {
    BlocksKeys(blocks, next);
  }

  /** Position by position: a present key is kept, and the key filled in at
      a missing one is the supply's key at that point, which is moved on by
      the missing keys to its left. */
  lemma {:induction false} AssignAt(ks: seq<Option<string>>, next: nat, i: int)
    requires 0 <= i < |ks|
    ensures |Assign(ks, next)| == |ks|
    ensures Truthy(ks[i]) ==> Assign(ks, next)[i] == ks[i]
    ensures !Truthy(ks[i]) ==> Assign(ks, next)[i] == Some(FreshKey(next + Missing(ks[..i])))
    decreases |ks|
  {
    if i == 0 {
      assert ks[..0] == [];
      if |ks| > 1 {
        AssignAt(ks[1..], TakeKey(ks[0], next).1, 0);
      }
    } else {
      var n1 := TakeKey(ks[0], next).1;
      AssignAt(ks[1..], n1, i - 1);
      assert ks[1..][i - 1] == ks[i];
      assert ks[..i] == [ks[0]] + ks[1..][..i - 1];
      assert Missing(ks[..i]) == (if Truthy(ks[0]) then 0 else 1) + Missing(ks[1..][..i - 1]);
    }
  }

  /** Every filled-in key is the supply's key at a position from `next` up
      to, not including, `next + Missing(ks)`; every other key is an input
      key at the same place and non-empty. */
  lemma {:induction false} AssignFrom(ks: seq<Option<string>>, next: nat, i: int)
    requires 0 <= i < |ks|
    ensures var a := Assign(ks, next);
            && |a| == |ks|
            && (Truthy(ks[i]) ==> a[i] == ks[i])
            && (!Truthy(ks[i]) ==>
                  exists m :: next <= m < next + Missing(ks) && a[i] == Some(FreshKey(m)))
  {
    AssignAt(ks, next, i);
    if !Truthy(ks[i]) {
      var m := next + Missing(ks[..i]);
      MissingPrefix(ks, i);
      assert next <= m < next + Missing(ks);
    }
  }

  lemma {:induction false} MissingPrefix(ks: seq<Option<string>>, i: int)
    requires 0 <= i < |ks| && !Truthy(ks[i])
    ensures Missing(ks[..i]) < Missing(ks)
  {
    assert ks == ks[..i] + ks[i..];
    assert ks[i..][0] == ks[i];
    AssignAppend(ks[..i], ks[i..], 0);
  }

  lemma {:induction false} AssignLength(ks: seq<Option<string>>, next: nat)
    ensures |Assign(ks, next)| == |ks|
    decreases |ks|
  {
    if ks != [] {
      AssignLength(ks[1..], TakeKey(ks[0], next).1);
    }
  }

  /** Every key the assignment yields is present and non-empty. */
  lemma AssignTruthy(ks: seq<Option<string>>, next: nat)
    ensures forall i :: 0 <= i < |Assign(ks, next)| ==> Truthy(Assign(ks, next)[i])
  {
    AssignLength(ks, next);
    forall i | 0 <= i < |Assign(ks, next)| ensures Truthy(Assign(ks, next)[i]) {
      AssignAt(ks, next, i);
    }
  }

  /** Distinct present keys, none of which the supply will hand out from
      `next` on. */
  ghost predicate KeysFresh(ks: seq<Option<string>>, next: nat)
  {
    && (forall i, j :: 0 <= i < j < |ks| && Truthy(ks[i]) && Truthy(ks[j]) ==> ks[i] != ks[j])
    && (forall i, m :: 0 <= i < |ks| && next <= m && Truthy(ks[i]) ==> ks[i].value != FreshKey(m))
  }

  predicate Distinct(ks: seq<Option<string>>)
  {
    forall i, j :: 0 <= i < j < |ks| ==> ks[i] != ks[j]
  }

  lemma {:induction false} AssignDistinct(ks: seq<Option<string>>, next: nat)
    requires KeysFresh(ks, next)
    ensures Distinct(Assign(ks, next))
    decreases |ks|
  {
    if ks != [] {
      var (k, n1) := TakeKey(ks[0], next);
      var tail := Assign(ks[1..], n1);
      assert KeysFresh(ks[1..], n1) by {
        forall i, j | 0 <= i < j < |ks[1..]| && Truthy(ks[1..][i]) && Truthy(ks[1..][j])
          ensures ks[1..][i] != ks[1..][j]
        {
          assert ks[1..][i] == ks[i + 1] && ks[1..][j] == ks[j + 1];
        }
        forall i, m | 0 <= i < |ks[1..]| && n1 <= m && Truthy(ks[1..][i])
          ensures ks[1..][i].value != FreshKey(m)
        {
          assert ks[1..][i] == ks[i + 1];
        }
      }
      AssignDistinct(ks[1..], n1);
      AssignLength(ks[1..], n1);
      var a := [Some(k)] + tail;
      assert Assign(ks, next) == a;
      forall j | 1 <= j < |a| ensures a[j] != a[0] {
        AssignFrom(ks[1..], n1, j - 1);
        assert a[j] == tail[j - 1];
        assert ks[1..][j - 1] == ks[j];
        if !Truthy(ks[j]) {
          var m :| n1 <= m < n1 + Missing(ks[1..]) && tail[j - 1] == Some(FreshKey(m));
          if !Truthy(ks[0]) && FreshKey(m) == FreshKey(next) {
            FreshKeyInjective(m, next);
          }
        }
      }
    }
  }

  /** When the value's present keys are distinct and none of them is one
      the supply will hand out, every key of the normalised value is
      present, non-empty, and different from every other. */
  lemma EnsureKeysUnique(blocks: seq<Block>, next: nat)
    requires |blocks| > 0
    requires KeysFresh(Keys(blocks), next)
    ensures var ks := Keys(EnsureKeys(Some(blocks), next).0);
            Distinct(ks) && forall i :: 0 <= i < |ks| ==> Truthy(ks[i])
  {
    var ks := Keys(blocks);
    BlocksKeys(blocks, next);
    AssignDistinct(ks, next);
    AssignTruthy(ks, next);
  }

  // ---------------------------------------------------------------------
  // Idempotence

  /** A child as the normaliser leaves it. */
  predicate ChildNormalized(c: Child)
  {
    Truthy(c.key) && (c.typ == "span" ==> c.text.Some? && c.marks.Some?)
  }

  /** A block as the normaliser leaves it. */
  predicate BlockNormalized(b: Block)
  {
    && Truthy(b.key) && b.typ == "block" && Truthy(b.style) && b.markDefs.Some? && b.children.Some?
    && forall i :: 0 <= i < |b.children.value| ==> ChildNormalized(b.children.value[i])
  }

  predicate Normalized(bs: seq<Block>)
  {
    forall i :: 0 <= i < |bs| ==> BlockNormalized(bs[i])
  }

  /** Everything `ensureKeys` returns is normalised. */
  lemma EnsureKeysNormalized(blocks: Option<seq<Block>>, next: nat)
    ensures Normalized(EnsureKeys(blocks, next).0)
  {
    if blocks.Some? && |blocks.value| > 0 {
      var out := EnsureKeys(blocks, next).0;
      BlocksShape(blocks.value, next);
      forall i | 0 <= i < |out| ensures BlockNormalized(out[i]) {
        var b := blocks.value[i];
        var cs := if b.children.Some? then b.children.value else [];
        assert BlockConforms(b, out[i]);
        forall j | 0 <= j < |out[i].children.value| ensures ChildNormalized(out[i].children.value[j]) {
          assert ChildConforms(cs[j], out[i].children.value[j]);
        }
      }
    }
  }

  lemma {:induction false} NormalizedChildrenFixed(cs: seq<Child>, next: nat)
    requires forall i :: 0 <= i < |cs| ==> ChildNormalized(cs[i])
    ensures NormalizeChildren(cs, next) == (cs, next)
    decreases |cs|
  {
    if cs != [] {
      assert ChildNormalized(cs[0]);
      NormalizedChildrenFixed(cs[1..], next);
      assert [cs[0]] + cs[1..] == cs;
    }
  }

  lemma {:induction false} NormalizedBlocksFixed(bs: seq<Block>, next: nat)
    requires Normalized(bs)
    ensures NormalizeBlocks(bs, next) == (bs, next)
    decreases |bs|
  {
    if bs != [] {
      assert BlockNormalized(bs[0]);
      NormalizedChildrenFixed(bs[0].children.value, next);
      NormalizedBlocksFixed(bs[1..], next);
      assert [bs[0]] + bs[1..] == bs;
    }
  }

  /** Running `ensureKeys` on its own output changes nothing and draws no
      key from the supply, wherever the supply stands. */
  lemma EnsureKeysIdempotent(blocks: Option<seq<Block>>, next: nat, later: nat)
    ensures var out := EnsureKeys(blocks, next).0;
            EnsureKeys(Some(out), later) == (out, later)
  {
    var out := EnsureKeys(blocks, next).0;
    EnsureKeysNormalized(blocks, next);
    if blocks.Some? && |blocks.value| > 0 {
      BlocksShape(blocks.value, next);
    }
    NormalizedBlocksFixed(out, later);
  }
}
