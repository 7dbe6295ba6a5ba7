/** From a user's value to the words a write sends (core/write_path.py). */
module WriteValue {
  import opened Common
  import opened RegisterDefs
  import opened ReadPlanner
  import opened RegisterSchema
  import Multi = MultiWordCodec
  import Single = SingleWordCodec

  // An element of a caller's list: int() accepts it or not.
  datatype Item = Whole(n: int) | NotANumber

  datatype UserValue = Items(items: seq<Item>) | Number(value: real) | Characters(text: seq<Multi.Ascii>)

  datatype Encoded = Rejected | Raised | Words(words: seq<int>) | OneWord(word: int)

  /** Text registers take characters and the others numbers. */
  predicate Suits(def: RegisterDef, value: UserValue) {
    def.Scalable() && (value.Characters? ==> def.kind == Text) && (value.Number? ==> def.kind != Text)
  }

  function AllWhole(items: seq<Item>): Option<seq<int>> {
    if items == [] then Some([])
    else
      var rest := AllWhole(items[1..]);
      if items[0].Whole? && rest.Some? then Some([items[0].n] + rest.value) else None
  }

  /** definition.encode on a register of several words. */
  function EncodeScalar(def: RegisterDef, value: UserValue): Result<seq<int>, EncodeError>
    requires !value.Items? && Suits(def, value)
  {
    if value.Characters? then Ok(Multi.EncodeText(def, value.text))
    else
      var words := Multi.EncodeInteger(def, value.value);
      if words.Err? then Err(words.error) else Ok(words.value)
  }

  function EncodeList(def: RegisterDef, items: seq<Item>, offset: nat): Encoded {
    if |items| + offset > def.length then Rejected
    else if offset == 0 && |items| != def.length then Rejected
    else
      var words := AllWhole(items);
      if words.Some? then Words(words.value) else Rejected
  }

  /** The words of a scalar's encoding from `offset` on. */
  function EncodeFrom(def: RegisterDef, value: UserValue, offset: nat): Encoded
    requires !value.Items? && Suits(def, value)
  {
    var encoded := EncodeScalar(def, value);
    if encoded.Err? then Raised
    else if offset >= def.length then Rejected
    else Words(if offset <= |encoded.value| then encoded.value[offset..] else [])
  }

  function EncodeOneWord(def: RegisterDef, value: UserValue): Encoded
    requires Suits(def, value)
  {
    if value.Items? then Rejected
    else if value.Characters? then Raised
    else
      var word := Single.Encode(def, value.value);
      if word.Err? then Raised else OneWord(word.value)
  }

  /** encode_write_value: Raised stands for an exception out of encode. */
  function EncodeWriteValue(def: RegisterDef, value: UserValue, offset: nat): Encoded
    requires Suits(def, value)
  {
    if def.length <= 1 then EncodeOneWord(def, value)
    else if value.Items? then EncodeList(def, value.items, offset)
    else EncodeFrom(def, value, offset)
  }

  /** Words a scalar is encoded to. */
  function ScalarWidth(def: RegisterDef): nat {
    if def.kind == Text then def.length else Multi.Width(def)
  }

  lemma {:induction false} AllWholeKeeps(items: seq<Item>)
    requires AllWhole(items).Some?
    ensures |AllWhole(items).value| == |items|
    ensures forall i :: 0 <= i < |items| ==> items[i] == Whole(AllWhole(items).value[i])
  {
    if items != [] {
      AllWholeKeeps(items[1..]);
    }
  }

  lemma ScalarWords(def: RegisterDef, value: UserValue)
    requires Suits(def, value) && !value.Items? && EncodeScalar(def, value).Ok?
    ensures |EncodeScalar(def, value).value| == ScalarWidth(def)
  {
  }

  /** Words written from address + offset upwards all land inside the register. */
  predicate StaysInside(def: RegisterDef, offset: nat, words: seq<int>) {
    words == [] || offset + |words| <= def.length
  }

  lemma {:induction false} AllWholeExactly(items: seq<Item>)
    ensures AllWhole(items).Some? <==> forall i :: 0 <= i < |items| ==> items[i].Whole?
  {
    if items != [] {
      AllWholeExactly(items[1..]);
      assert items == [items[0]] + items[1..];
    }
  }

  /** A list is accepted exactly by a register of several words, if it fits behind the offset, fills the
      register where it starts at its beginning, and holds whole numbers only. */
  lemma ListAccepted(def: RegisterDef, items: seq<Item>, offset: nat)
    requires Suits(def, Items(items))
    ensures Accepted(EncodeWriteValue(def, Items(items), offset)) <==>
            && def.length >= 2 && offset + |items| <= def.length && (offset == 0 ==> |items| == def.length)
            && forall i :: 0 <= i < |items| ==> items[i].Whole?
    ensures !EncodeWriteValue(def, Items(items), offset).Raised?
  {
    AllWholeExactly(items);
  }

  /** Anything else is accepted exactly if the codec takes it and, on a register of several words, the offset
      lies inside; otherwise the codec's error goes up first. */
  lemma ScalarAccepted(def: RegisterDef, value: UserValue, offset: nat)
    requires Suits(def, value) && !value.Items?
    ensures var e := EncodeWriteValue(def, value, offset);
            if def.length <= 1 then
              if value.Characters? || Single.Encode(def, value.value).Err? then e == Raised
              else e == OneWord(Single.Encode(def, value.value).value)
            else if value.Number? && Multi.EncodeInteger(def, value.value).Err? then e == Raised
            else if offset >= def.length then e == Rejected
            else e.Words?
  {
    hide Multi.EncodeInteger, Multi.EncodeText;
  }

  /** An accepted list goes, as given, inside the register. */
  lemma ListStaysInside(def: RegisterDef, items: seq<Item>, offset: nat)
    requires Suits(def, Items(items)) && EncodeWriteValue(def, Items(items), offset).Words?
    ensures var words := EncodeWriteValue(def, Items(items), offset).words;
            && StaysInside(def, offset, words)
            && |words| == |items| && (forall i :: 0 <= i < |items| ==> items[i] == Whole(words[i]))
  {
    AllWholeKeeps(items);
  }

  /** An accepted scalar is written from its word `offset` on, and stays inside the register exactly
      when its encoding is not wider than the register or starts beyond the encoding. */
  lemma ScalarPlacement(def: RegisterDef, value: UserValue, offset: nat)
    requires Suits(def, value) && !value.Items? && EncodeWriteValue(def, value, offset).Words?
    ensures var full, words := EncodeScalar(def, value).value, EncodeWriteValue(def, value, offset).words;
            && |full| == ScalarWidth(def)
            && |words| == Max(0, |full| - offset)
            && (forall i :: offset <= i < |full| ==> words[i - offset] == full[i])
            && (StaysInside(def, offset, words) <==> ScalarWidth(def) <= def.length || offset >= ScalarWidth(def))
  {
    ScalarWords(def, value);
  }

  /** An entry whose two types agree loads as a register just as wide as its type. */
  lemma AgreeingTypesFit(def: RegisterDef, e: Entry)
    requires LoadedFrom(def, e) && TypesAgree(e)
    ensures ScalarWidth(def) == def.length
  {
    AgreeingLength(def, e);
  }

  predicate Accepted(e: Encoded) {
    e.Words? || e.OneWord?
  }

  /** The words an accepted value is written as, from address + offset upwards. */
  function Sent(e: Encoded): seq<int>
    requires Accepted(e)
  {
    if e.Words? then e.words else [e.word]
  }

  /** A register of one word takes no offset; for a longer one the encoding must not be wider than the
      register or must start beyond its own end. Lists are checked as they are. */
  predicate Fits(def: RegisterDef, value: UserValue, offset: nat) {
    if def.length <= 1 then def.length == 1 && offset == 0
    else value.Items? || ScalarWidth(def) <= def.length || offset >= ScalarWidth(def)
  }

  /** Every accepted value, on every register: it is written inside the register exactly when it fits. */
  lemma WrittenInsideExactly(def: RegisterDef, value: UserValue, offset: nat)
    requires Suits(def, value) && Accepted(EncodeWriteValue(def, value, offset))
    ensures StaysInside(def, offset, Sent(EncodeWriteValue(def, value, offset))) <==> Fits(def, value, offset)
  {
    if def.length > 1 {
      if value.Items? {
        ListStaysInside(def, value.items, offset);
      } else {
        ScalarPlacement(def, value, offset);
      }
    }
  }

  /** On a register whose types agree only the offset of a one-word register is left to go wrong: it is
      never checked. */
  lemma AgreeingTypesStayInside(def: RegisterDef, e: Entry, value: UserValue, offset: nat)
    requires LoadedFrom(def, e) && TypesAgree(e)
    requires Suits(def, value) && Accepted(EncodeWriteValue(def, value, offset))
    ensures StaysInside(def, offset, Sent(EncodeWriteValue(def, value, offset)))
       <==> (def.length <= 1 ==> def.length == 1 && offset == 0)
  {
    AgreeingTypesFit(def, e);
    WrittenInsideExactly(def, value, offset);
  }

  /** When the types disagree it is the inner type's own width that decides. */
  lemma DisagreeingTypesFit(def: RegisterDef, e: Entry)
    requires LoadedFrom(def, e)
    ensures ScalarWidth(def) <= def.length <==>
            TypesAgree(e) || def.kind in {Plain, I16, Text} || TypeLength(CodecType(e).value).value <= def.length
  {
    if TypesAgree(e) {
      AgreeingTypesFit(def, e);
    }
  }

  lemma ZeroIsFourWords(def: RegisterDef)
    requires def.kind == U64 && def.minimum.None? && def.maximum.None? && Multi.Unscaled(def)
    ensures Multi.EncodeInteger(def, 0 as real).Ok? && |Multi.EncodeInteger(def, 0 as real).value| == 4
  {
    hide Multi.Pow256, Multi.EncodeInteger, Multi.IntegerWords, Multi.IntegerOf;
    Multi.EncodeAccepts(def, 0);
    Multi.WordsKeepInteger(def, 0);
  }

  /** The schema does let such an entry through: declared as u32, with u64 in its extra metadata, a register
      of two words takes a value that is written four words wide. */
  lemma SizedTypeEscapes()
    ensures exists e: Entry, def: RegisterDef, value: UserValue :: LoadedFrom(def, e) && EscapesFrom(def, value)
  {
    hide Multi.EncodeInteger;
    var e := Entry(Some(U32Type), Some(U64Type), Some(2));
    var def := RegisterDef(3, 100, 2, U64, BigEndian, false, false, None, None, 1.0, 1.0);
    var value := Number(0 as real);
    ZeroIsFourWords(def);
    assert LoadedFrom(def, e) && EscapesFrom(def, value);
  }

  predicate EscapesFrom(def: RegisterDef, value: UserValue) {
    && Suits(def, value) && EncodeWriteValue(def, value, 0).Words?
    && !StaysInside(def, 0, EncodeWriteValue(def, value, 0).words)
  }

  /** bool(value) */
  predicate Truthy(value: UserValue) {
    match value
    case Items(items) => items != []
    case Number(v) => v != 0.0
    case Characters(text) => text != []
  }

  lemma ScalarIsFrom(def: RegisterDef, value: UserValue, offset: nat, words: seq<int>, full: seq<int>)
    requires Suits(def, value) && !value.Items? && offset <= |full|
    requires EncodeScalar(def, value) == Ok(full) && EncodeWriteValue(def, value, offset) == Words(words)
    ensures words == full[offset..]
  {
    hide EncodeScalar;
  }

  /** Through any chunk size, word i of a scalar's full encoding travels to address + i. */
  lemma {:induction false} WordReachesItsPlace(def: RegisterDef, value: UserValue, offset: nat, words: seq<int>,
      full: seq<int>, chunks: seq<WordChunk>, cap: int, i: nat)
    requires Suits(def, value) && !value.Items?
    requires EncodeScalar(def, value) == Ok(full) && EncodeWriteValue(def, value, offset) == Words(words)
    requires IsChunkPlan(chunks, def.address + offset, words, cap)
    requires offset <= i < |full|
    ensures Carries(chunks, def.address + i, full[i])
  {
    hide EncodeScalar, EncodeFrom, IsSlice;
    assert words == full[offset..] by {
      ScalarIsFrom(def, value, offset, words, full);
    }
    PlanCarriesWord(chunks, def.address + offset, words, cap, def.address + i, full[i]);
  }

  ghost predicate ChunksInside(def: RegisterDef, chunks: seq<WordChunk>) {
    forall c, a :: 0 <= c < |chunks| && chunks[c].Covers(a) ==> def.address <= a < def.address + def.length
  }

  /** Through any chunk size, no chunk of an accepted value leaves the register exactly when the value fits. */
  lemma ChunksStayInside(def: RegisterDef, value: UserValue, offset: nat, words: seq<int>,
      chunks: seq<WordChunk>, cap: int)
    requires Suits(def, value) && Accepted(EncodeWriteValue(def, value, offset))
    requires words == Sent(EncodeWriteValue(def, value, offset))
    requires IsChunkPlan(chunks, def.address + offset, words, cap)
    ensures ChunksInside(def, chunks) <==> Fits(def, value, offset)
  {
    WrittenInsideExactly(def, value, offset);
    PlanInside(def, offset, words, chunks, cap);
  }

  lemma PlanInside(def: RegisterDef, offset: nat, words: seq<int>, chunks: seq<WordChunk>, cap: int)
    requires IsChunkPlan(chunks, def.address + offset, words, cap)
    ensures ChunksInside(def, chunks) <==> StaysInside(def, offset, words)
  {
    var start := def.address + offset;
    if ChunksInside(def, chunks) && words != [] {
      var last := start + |words| - 1;
      PlanCarriesWord(chunks, start, words, cap, last, words[|words| - 1]);
      var c :| 0 <= c < |chunks| && chunks[c].Covers(last);
    }
    if StaysInside(def, offset, words) {
      forall c, a | 0 <= c < |chunks| && chunks[c].Covers(a) ensures def.address <= a < def.address + def.length {
        assert IsSlice(chunks[c], start, words, cap);
      }
    }
  }
}
