/** The validator in terms of messages: what `EssenceAccepted` and `EssenceParsed` of
    module ApiState mean for the one message in the buffer. */
module ParserMeaning {
  import opened Bytes
  import opened Config
  import opened Essence
  import opened Address
  import opened ApiState
  import opened InternalTransfer

  /** The typed address of an output. */
  function TypedAddress(o: Output): address
    requires |o.pubkeyHash| == 32
  {
    [0] + o.pubkeyHash
  }

  lemma AddressOfOutput(d: buffer, l: Layout, k: nat)
    requires HasLayout(d, l) && k < l.outputs
    ensures l.outputsAt + OUTPUT_SIZE * l.outputs <= |d|
    ensures OutputsAt(d, l.outputsAt, l.outputs)[k] == OutputAt(d, l.outputsAt + OUTPUT_SIZE * k)
    ensures |OutputAt(d, l.outputsAt + OUTPUT_SIZE * k).pubkeyHash| == 32
    ensures OutputAddress(d, l.outputsAt, k) == TypedAddress(OutputAt(d, l.outputsAt + OUTPUT_SIZE * k))
  {
    hide U16, U64, InputOk, EntryOk;
    var o := l.outputsAt + OUTPUT_SIZE * k;
    assert OutputOk(d, o);
    assert d[o+12..o+45] == [d[o+12]] + d[o+13..o+45];
  }

  /** The buffer holds the message `e` with the entries `bs`, its announced remainder
      is owned, and it can be hashed. */
  ghost predicate MessageAccepted(c: Crypto, a: Api, e: Essence, bs: seq<Entry>) {
    StartsWith(a.buffer, e, bs)
    && (a.essence.hasRemainder ==>
          a.essence.remainderIndex < |e.outputs| && EntryWellFormed(a.essence.remainder)
          && AddressOf(c, WithEntry(a.path, a.essence.remainder))
             == Some(TypedAddress(e.outputs[a.essence.remainderIndex])))
    && c.blake2b(Serialize(e)).Some?
  }

  /** A layout is accepted exactly when the message it lays out is. */
  lemma LayoutAcceptedIffMessage(c: Crypto, a: Api, l: Layout)
    requires HasLayout(a.buffer, l)
    ensures EssenceAccepted(c, a, l)
       <==> MessageAccepted(c, a, EssenceAt(a.buffer, l), EntriesAt(a.buffer, l.essenceLength, l.inputs))
  {
    hide HasLayout, StartsWith, Serialize, AddressOf, OutputAt, OutputAddress, TypedAddress;
    LayoutStartsWith(a.buffer, l);
    LayoutBounds(a.buffer, l);
    if a.essence.remainderIndex < l.outputs {
      AddressOfOutput(a.buffer, l, a.essence.remainderIndex);
    }
  }

  /** The validator accepts exactly the buffers that start with an accepted message. */
  lemma ParserEqualsGrammar(c: Crypto, a: Api)
    ensures (exists l :: EssenceAccepted(c, a, l)) <==> (exists e, bs :: MessageAccepted(c, a, e, bs))
  {
    hide HasLayout, StartsWith, EssenceAccepted, MessageAccepted, LayoutOf;
    forall e, bs | MessageAccepted(c, a, e, bs)
      ensures EssenceAccepted(c, a, LayoutOf(e))
    {
      AcceptedLayout(c, a, e, bs);
    }
    forall l | EssenceAccepted(c, a, l)
      ensures exists e, bs :: MessageAccepted(c, a, e, bs)
    {
      AcceptedHasLayout(c, a, l);
      LayoutBounds(a.buffer, l);
      LayoutAcceptedIffMessage(c, a, l);
      assert MessageAccepted(c, a, EssenceAt(a.buffer, l), EntriesAt(a.buffer, l.essenceLength, l.inputs));
    }
  }

  /** The layout of an accepted message is the one that is accepted. */
  lemma AcceptedLayout(c: Crypto, a: Api, e: Essence, bs: seq<Entry>)
    requires MessageAccepted(c, a, e, bs)
    ensures EssenceAccepted(c, a, LayoutOf(e)) && HasLayout(a.buffer, LayoutOf(e))
    ensures EssenceAt(a.buffer, LayoutOf(e)) == e
    ensures forall l :: EssenceAccepted(c, a, l) ==> l == LayoutOf(e)
  {
    hide HasLayout, StartsWith, EssenceAccepted, Serialize, LayoutOf;
    StartsWithLayout(a.buffer, e, bs);
    LayoutAcceptedIffMessage(c, a, LayoutOf(e));
    forall l | EssenceAccepted(c, a, l)
      ensures l == LayoutOf(e)
    {
      AcceptedHasLayout(c, a, l);
      LayoutUnique(a.buffer, l, LayoutOf(e));
    }
  }

  /** The context after validation records the hash, the lengths and the positions of
      the accepted message. */
  lemma ParsedIsMessage(c: Crypto, a: Api, e: Essence, bs: seq<Entry>)
    requires MessageAccepted(c, a, e, bs)
    ensures EssenceAccepted(c, a, LayoutOf(e))
    ensures var r := EssenceParsed(c, a, LayoutOf(e));
      && r.essence.hash == c.blake2b(Serialize(e)).value
      && r.essence.length == |Serialize(e)| && r.dataLength == |Serialize(e) + SerializeEntries(bs)|
      && r.essence.inputsCount == |e.inputs| && r.essence.outputsCount == |e.outputs|
      && r.essence.inputs == Some(11) && 11 + INPUT_SIZE * |e.inputs| <= |a.buffer|
      && InputsAt(a.buffer, 11, |e.inputs|) == e.inputs
      && r.essence.outputs == Some(LayoutOf(e).outputsAt)
      && LayoutOf(e).outputsAt + OUTPUT_SIZE * |e.outputs| <= |a.buffer|
      && OutputsAt(a.buffer, LayoutOf(e).outputsAt, |e.outputs|) == e.outputs
      && r.essence.entries == Some(|Serialize(e)|) && |Serialize(e)| + ENTRY_SIZE * |bs| <= |a.buffer|
      && EntriesAt(a.buffer, |Serialize(e)|, |bs|) == bs
  {
    hide HasLayout, StartsWith, Serialize, SerializeEntries, RemainderVerified, StaysInWallet, InputsAt, OutputsAt,
      EntriesAt;
    var l := LayoutOf(e);
    AcceptedLayout(c, a, e, bs);
    StartsWithLayout(a.buffer, e, bs);
    LayoutStartsWith(a.buffer, l);
    LayoutBounds(a.buffer, l);
    SameCounts(a.buffer, e, bs);
  }

  lemma SameCounts(d: buffer, e: Essence, bs: seq<Entry>)
    requires StartsWith(d, e, bs)
    ensures |bs| == |e.inputs|
  {}

  lemma AcceptedHasLayout(c: Crypto, a: Api, l: Layout)
    requires EssenceAccepted(c, a, l)
    ensures HasLayout(a.buffer, l)
  {}
}
