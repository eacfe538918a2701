/**
 * `getPubkeyFromSignature`: rebuilds the bytes a BOLT11 invoice signature
 * covers from the sections of the decoded invoice, hashes them and recovers
 * the signer's compressed public key.
 *
 * SHA-256 and the secp256k1 library are not modelled: they are passed in as
 * functions, `sha256` from bytes to a digest and `recover` from the compact
 * signature text, the recovery id and the digest to the compressed key
 * bytes (None when the library throws).
 */
module Signature {
  import opened Wrappers
  import opened Bits
  import opened JsBuiltins
  import opened Hex
  import opened Bech32

  /** One section of a decoded invoice; `letters` and `value` may be absent. */
  datatype Section = Section(name: string, letters: Option<string>, value: Option<string>)

  /** The decoder's output: the sections in invoice order and the invoice text. */
  datatype DecodedInvoice = DecodedInvoice(sections: seq<Section>, paymentRequest: string)

  /**
   * Why no key comes back: the function returns `null`; `splitInvoice[1]`
   * is undefined and the `split` call on it throws; or the curve library
   * throws. `InvalidEncoding` is only produced by the checked
   * reconstruction, for a data part with a character outside the bech32
   * alphabet.
   */
  datatype Failure = NotRecoverable | MissingDataPart | RecoveryFailed | InvalidEncoding

  /** What the signature covers, with the two parts of the signature text. */
  datatype Signed = Signed(
    prefix: string,
    data: string,
    signingData: string,
    recoveryId: Option<int>,
    signatureValue: string)

  /** A string field is truthy in JavaScript when it is present and not empty. */
  predicate Truthy(field: Option<string>)
  {
    field.Some? && field.value != ""
  }

  /** The position of the first section with that name at or after `from`. */
  function FindIndex(sections: seq<Section>, name: string, from: nat): (r: Option<nat>)
    ensures r.None? <==> forall i :: from <= i < |sections| ==> sections[i].name != name
    ensures r.Some? ==> from <= r.value < |sections| && sections[r.value].name == name
    ensures r.Some? ==> forall j :: from <= j < r.value ==> sections[j].name != name
    decreases |sections| - from
  {
    if from >= |sections| then None
    else if sections[from].name == name then Some(from)
    else FindIndex(sections, name, from + 1)
  }

  /** `sections.find(section => section.name === name)`: the first section with that name. */
  function Find(sections: seq<Section>, name: string): (r: Option<Section>)
    ensures r.None? <==> forall i :: 0 <= i < |sections| ==> sections[i].name != name
    ensures r.Some? ==> r.value.name == name
    ensures r.Some? ==>
      exists i :: 0 <= i < |sections| && sections[i] == r.value && forall j :: 0 <= j < i ==> sections[j].name != name
  {
    match FindIndex(sections, name, 0)
    case None => None
    case Some(i) => Some(sections[i])
  }

  /** The section names whose letters make up the human-readable prefix. */
  const PrefixNames: seq<string> := ["lightning_network", "coin_network", "amount"]

  /**
   * What one section adds to the prefix: nothing when `filter` drops it,
   * its letters otherwise, and "" for missing letters (`join` writes
   * undefined as the empty string).
   */
  function PrefixPiece(s: Section): string
  {
    if s.name in PrefixNames && s.letters.Some? then s.letters.value else ""
  }

  /** `sections.filter(...).map(section => section.letters).join('')`. */
  function Prefix(sections: seq<Section>): string
  {
    if sections == [] then "" else Prefix(sections[..|sections| - 1]) + PrefixPiece(sections[|sections| - 1])
  }

  /** The `letters` of the first `separator` section, if any. */
  function Separator(sections: seq<Section>): Option<string>
  {
    match Find(sections, "separator")
    case None => None
    case Some(s) => s.letters
  }

  /** `slice(-2)` and `slice(0, -2)` cut the string here; shorter strings are all tail. */
  function RecoveryCut(value: string): (k: nat)
    ensures k <= |value| && |value| - k == if |value| >= 2 then 2 else |value|
  {
    if |value| >= 2 then |value| - 2 else 0
  }

  /** `parseInt(value.slice(-2), 16)`, with None for NaN. */
  function RecoveryId(value: string): Option<int>
  {
    ParseInt16(value[RecoveryCut(value)..])
  }

  /** `value.slice(0, -2)`: the compact signature text. */
  function SignatureValue(value: string): string
  {
    value[..RecoveryCut(value)]
  }

  /**
   * `paymentRequest.split(marker)[1].split(letters)[0]`: the text after the
   * first occurrence of the marker, up to the next occurrence of the marker
   * or of the signature letters; None when the marker does not occur and
   * `[1]` is undefined.
   */
  function DataPartOf(request: string, marker: string, letters: string): Option<string>
    requires |marker| > 0 && |letters| > 0
  {
    match SplitSecond(request, marker)
    case None => None
    case Some(rest) => Some(SplitFirst(rest, letters))
  }

  /** The signature section, when it has both letters and a value; otherwise the function returns `null`. */
  function UsableSignature(sections: seq<Section>): Option<Section>
  {
    var sig := Find(sections, "signature");
    if sig.Some? && Truthy(sig.value.letters) && Truthy(sig.value.value) then sig else None
  }

  /**
   * Everything before the digest: the prefix, the data part, the signing
   * data as hex, and the recovery id and compact signature.
   */
  function SigningData(inv: DecodedInvoice): (r: Result<Signed, Failure>)
    ensures r.Ok? ==> r.value.prefix != "" && r.value.prefix == Prefix(inv.sections)
    ensures r.Ok? ==> |StrToHex(r.value.prefix)| <= |r.value.signingData|
  {
    match UsableSignature(inv.sections)
    case None => Err(NotRecoverable)
    case Some(sig) =>
      var prefix := Prefix(inv.sections);
      if prefix == "" then Err(NotRecoverable)
      else
        var separator := Separator(inv.sections);
        if !Truthy(separator) then Err(NotRecoverable)
        else
          match DataPartOf(inv.paymentRequest, prefix + separator.value, sig.letters.value)
          case None => Err(MissingDataPart)
          case Some(data) =>
            var signingData := StrToHex(prefix) + ByteArrayToHexString(Packed(Indices(data)));
            var value := sig.value.value;
            Ok(Signed(prefix, data, signingData, RecoveryId(value), SignatureValue(value)))
  }

  /**
   * The reconstruction with the corrected decoder: a data part with a
   * character outside the bech32 alphabet is an explicit failure instead of
   * being packed with -1 values.
   */
  function CheckedSigningData(inv: DecodedInvoice): (r: Result<Signed, Failure>)
    ensures r == Err(InvalidEncoding) <==> SigningData(inv).Ok? && !IsBech32(SigningData(inv).value.data)
    ensures r.Ok? ==> SigningData(inv).Ok? && IsBech32(r.value.data)
  {
    var signed :- SigningData(inv);
    match Bech32ToBytes(signed.data)
    case None => Err(InvalidEncoding)
    case Some(bytes) => Ok(signed.(signingData := StrToHex(signed.prefix) + ByteArrayToHexString(bytes)))
  }

  /**
   * `getPubkeyFromSignature(decoded)`: the signing data is decoded to bytes
   * (`hexToArrayBuffer`), hashed, and the key recovered and hex-encoded.
   */
  function GetPubkeyFromSignature(
    inv: DecodedInvoice,
    sha256: seq<byte> -> seq<byte>,
    recover: (string, Option<int>, seq<byte>) -> Option<seq<byte>>): (r: Result<string, Failure>)
    ensures r.Ok? ==> SigningData(inv).Ok?
    ensures r.Ok? ==> forall i :: 0 <= i < |r.value| ==> IsHexDigit(r.value[i])
  {
    var signed :- SigningData(inv);
    var hash := sha256(DecodeHex(signed.signingData));
    match recover(signed.signatureValue, signed.recoveryId, hash)
    case None => Err(RecoveryFailed)
    case Some(key) => Ok(ByteArrayToHexString(key))
  }

  // ---------------------------------------------------------------------
  // The prefix
  // ---------------------------------------------------------------------

  /** The prefix of a concatenation is the concatenation of the prefixes: sections keep their order. */
  lemma {:induction false} PrefixAppend(a: seq<Section>, b: seq<Section>)
    ensures Prefix(a + b) == Prefix(a) + Prefix(b)
    decreases |b|
  {
    if b == [] {
      assert a + b == a;
    } else {
      var init, last := b[..|b| - 1], b[|b| - 1];
      assert (a + b)[..|a + b| - 1] == a + init;
      PrefixAppend(a, init);
      ConcatAssoc(Prefix(a), Prefix(init), PrefixPiece(last));
    }
  }

  /** The prefix is empty exactly when no section contributes letters to it. */
  lemma {:induction false} PrefixEmpty(sections: seq<Section>)
    ensures Prefix(sections) == "" <==> forall i :: 0 <= i < |sections| ==> PrefixPiece(sections[i]) == ""
  {
    if sections != [] {
      var init := sections[..|sections| - 1];
      PrefixEmpty(init);
      assert Prefix(sections) == Prefix(init) + PrefixPiece(sections[|sections| - 1]);
      NoPiecesSplit(sections, init);
    }
  }

  lemma {:induction false} NoPiecesSplit(sections: seq<Section>, init: seq<Section>)
    requires sections != [] && init == sections[..|sections| - 1]
    ensures (forall i :: 0 <= i < |sections| ==> PrefixPiece(sections[i]) == "") <==>
      && (forall i :: 0 <= i < |init| ==> PrefixPiece(init[i]) == "")
      && PrefixPiece(sections[|sections| - 1]) == ""
  {
    assert forall i :: 0 <= i < |init| ==> init[i] == sections[i];
  }

  /**
   * For sections in invoice order, network first, then coin network, then
   * amount, then sections of other names, the prefix is their letters
   * joined, whatever values the sections carry.
   */
  lemma {:induction false} PrefixOfInvoice(ln: string, coin: string, amount: string,
                                           v0: Option<string>, v1: Option<string>, v2: Option<string>, rest: seq<Section>)
    requires forall i :: 0 <= i < |rest| ==> rest[i].name !in PrefixNames
    ensures Prefix([Section("lightning_network", Some(ln), v0),
                    Section("coin_network", Some(coin), v1),
                    Section("amount", Some(amount), v2)] + rest) == ln + coin + amount
  {
    var s0 := Section("lightning_network", Some(ln), v0);
    var s1 := Section("coin_network", Some(coin), v1);
    var s2 := Section("amount", Some(amount), v2);
    assert Prefix([s0, s1]) == ln + coin by {
      PrefixOfPair(s0, s1);
    }
    assert Prefix([s0, s1, s2]) == ln + coin + amount by {
      assert [s0, s1, s2][..2] == [s0, s1];
      assert PrefixPiece(s2) == amount;
    }
    PrefixAppend([s0, s1, s2], rest);
    PrefixOfOthers(rest);
  }

  /**
   * An invoice without an amount section: network, then coin network, then
   * sections of other names give the shorter prefix of the two letters joined.
   */
  lemma {:induction false} PrefixOfAmountlessInvoice(ln: string, coin: string,
                                                     v0: Option<string>, v1: Option<string>, rest: seq<Section>)
    requires forall i :: 0 <= i < |rest| ==> rest[i].name !in PrefixNames
    ensures Prefix([Section("lightning_network", Some(ln), v0),
                    Section("coin_network", Some(coin), v1)] + rest) == ln + coin
  {
    var s0 := Section("lightning_network", Some(ln), v0);
    var s1 := Section("coin_network", Some(coin), v1);
    PrefixOfPair(s0, s1);
    PrefixAppend([s0, s1], rest);
    PrefixOfOthers(rest);
  }

  /** Two sections contribute their pieces in order. */
  lemma {:induction false} PrefixOfPair(s0: Section, s1: Section)
    ensures Prefix([s0, s1]) == PrefixPiece(s0) + PrefixPiece(s1)
  {
    assert Prefix([s0]) == PrefixPiece(s0) by {
      assert [s0][..0] == [];
    }
    assert [s0, s1][..1] == [s0];
  }

  /** Sections of other names contribute nothing to the prefix. */
  lemma {:induction false} PrefixOfOthers(rest: seq<Section>)
    requires forall i :: 0 <= i < |rest| ==> rest[i].name !in PrefixNames
    ensures Prefix(rest) == ""
  {
    PrefixEmpty(rest);
    assert forall i :: 0 <= i < |rest| ==> PrefixPiece(rest[i]) == "";
  }

  // ---------------------------------------------------------------------
  // The outcomes of the reconstruction
  // ---------------------------------------------------------------------

  /** `null` comes back exactly in the three cases: no usable signature, an empty prefix, no separator. */
  lemma {:induction false} NotRecoverableCases(inv: DecodedInvoice)
    ensures SigningData(inv) == Err(NotRecoverable) <==>
      || UsableSignature(inv.sections).None?
      || Prefix(inv.sections) == ""
      || !Truthy(Separator(inv.sections))
  {
  }

  /** The signature section is usable exactly when the first section named `signature` has letters and a value. */
  lemma {:induction false} UsableSignatureFirst(sections: seq<Section>)
    ensures UsableSignature(sections).Some? <==>
      exists i :: 0 <= i < |sections| && sections[i].name == "signature"
        && (forall j :: 0 <= j < i ==> sections[j].name != "signature")
        && Truthy(sections[i].letters) && Truthy(sections[i].value)
  {
    var r := FindIndex(sections, "signature", 0);
    if r.Some? {
      var k := r.value;
      forall i | 0 <= i < |sections| && sections[i].name == "signature"
          && (forall j :: 0 <= j < i ==> sections[j].name != "signature")
        ensures i == k
      {
      }
    }
  }

  /** Past the three null checks, the call throws exactly when `prefix + separator` is not in the request. */
  lemma {:induction false} MissingDataPartCase(inv: DecodedInvoice)
    ensures SigningData(inv) == Err(MissingDataPart) <==>
      && UsableSignature(inv.sections).Some?
      && Prefix(inv.sections) != ""
      && Truthy(Separator(inv.sections))
      && !Contains(inv.paymentRequest, Prefix(inv.sections) + Separator(inv.sections).value)
  {
  }

  /** The data part is missing exactly when the marker does not occur in the request. */
  lemma {:induction false} DataPartMissing(request: string, marker: string, letters: string)
    requires |marker| > 0 && |letters| > 0
    ensures DataPartOf(request, marker, letters).None? <==> !Contains(request, marker)
  {
  }

  /**
   * The data part stands right after the first occurrence of the marker, in
   * the piece that runs up to the next marker or the end of the request, and
   * within that piece it runs up to the first occurrence of the signature
   * letters or the piece's end; so it holds no occurrence of the letters.
   */
  lemma {:induction false} DataPartPlace(request: string, marker: string, letters: string, data: string)
    requires |marker| > 0 && |letters| > 0
    requires DataPartOf(request, marker, letters) == Some(data)
    ensures exists i: nat, rest: string ::
      && FirstOccurrence(request, marker, i)
      && Piece(request, i + |marker|, rest, marker)
      && Piece(rest, 0, data, letters)
    ensures exists i: nat :: FirstOccurrence(request, marker, i) && OccursAt(request, data, i + |marker|)
    ensures !Contains(data, letters)
  {
    var i, rest := DataPartAt(request, marker, letters, data);
  }

  /** DataPartPlace at the marker's first position i, with the text after the marker named rest. */
  lemma {:induction false} DataPartAt(request: string, marker: string, letters: string, data: string) returns (i: nat, rest: string)
    requires |marker| > 0 && |letters| > 0
    requires DataPartOf(request, marker, letters) == Some(data)
    ensures FirstOccurrence(request, marker, i)
    ensures Piece(request, i + |marker|, rest, marker) && Piece(rest, 0, data, letters)
    ensures OccursAt(request, data, i + |marker|) && !Contains(data, letters)
  {
    i, rest := MarkerAt(request, marker, letters, data);
    assert Piece(request, i + |marker|, rest, marker) by {
      SplitSecondAt(request, marker, i);
    }
    assert Piece(rest, 0, data, letters) && !Contains(data, letters);
    assert OccursAt(request, data, i + |marker|) by {
      OccursAtFront(request, i + |marker|, rest, data);
    }
  }

  /** When there is a data part, the marker first occurs at some i, and the data part is split from the text after it. */
  lemma {:induction false} MarkerAt(request: string, marker: string, letters: string, data: string) returns (i: nat, rest: string)
    requires |marker| > 0 && |letters| > 0
    requires DataPartOf(request, marker, letters) == Some(data)
    ensures FirstOccurrence(request, marker, i)
    ensures SplitSecond(request, marker) == Some(rest) && data == SplitFirst(rest, letters)
  {
    var r := SplitSecond(request, marker);
    var k := IndexOf(request, marker, 0);
    assert r.Some?;
    assert k.Some? by {
      assert Contains(request, marker);
    }
    i, rest := k.value, r.value;
  }

  /** Conversely, text placed as DataPartPlace describes is the data part: the description fixes it. */
  lemma {:induction false} DataPartExact(request: string, marker: string, letters: string, i: nat, rest: string, data: string)
    requires |marker| > 0 && |letters| > 0
    requires FirstOccurrence(request, marker, i) && Piece(request, i + |marker|, rest, marker)
    requires Piece(rest, 0, data, letters)
    ensures DataPartOf(request, marker, letters) == Some(data)
  {
    SplitSecondExact(request, marker, i, rest);
    SplitFirstExact(rest, letters, data);
  }

  /** The data field of the result is that part of the request. */
  lemma {:induction false} SignedData(inv: DecodedInvoice)
    requires SigningData(inv).Ok?
    ensures UsableSignature(inv.sections).Some? && Truthy(Separator(inv.sections))
    ensures
      var marker := Prefix(inv.sections) + Separator(inv.sections).value;
      var letters := UsableSignature(inv.sections).value.letters.value;
      DataPartOf(inv.paymentRequest, marker, letters) == Some(SigningData(inv).value.data)
  {
  }

  /**
   * The signing data decodes to the prefix's character codes followed by
   * the packed data part, and for a bech32 data part those are the bytes
   * of the corrected decoder: the BOLT #11 signing rule.
   */
  lemma {:induction false} SigningDataBytes(inv: DecodedInvoice)
    requires SigningData(inv).Ok?
    requires var p := SigningData(inv).value.prefix; forall i :: 0 <= i < |p| ==> 0x10 <= p[i] as int <= 0xFF
    ensures
      var r := SigningData(inv).value;
      DecodeHex(r.signingData) == CharCodes(r.prefix) + Packed(Indices(r.data))
    ensures
      var r := SigningData(inv).value;
      |r.signingData| == 2 * |r.prefix| + 2 * |Packed(Indices(r.data))|
    ensures
      var r := SigningData(inv).value;
      IsBech32(r.data) ==> Bech32ToBytes(r.data) == Some(DecodeHex(r.signingData)[|r.prefix|..])
  {
    var r := SigningData(inv).value;
    var bytes := Packed(Indices(r.data));
    StrToHexCodes(r.prefix);
    HexRoundTrip(bytes);
    DecodeHexAppend(StrToHex(r.prefix), ByteArrayToHexString(bytes));
    SliceRight(CharCodes(r.prefix), bytes);
  }

  /**
   * Two invoices with the same prefix whose bech32 data parts have the same
   * length and whose signing data agree have the same data part: a changed
   * character changes the signed bytes.
   */
  lemma {:induction false} SigningDataInjective(a: DecodedInvoice, b: DecodedInvoice)
    requires SigningData(a).Ok? && SigningData(b).Ok?
    requires SigningData(a).value.prefix == SigningData(b).value.prefix
    requires var p := SigningData(a).value.prefix; forall i :: 0 <= i < |p| ==> 0x10 <= p[i] as int <= 0xFF
    requires IsBech32(SigningData(a).value.data) && IsBech32(SigningData(b).value.data)
    requires |SigningData(a).value.data| == |SigningData(b).value.data|
    requires SigningData(a).value.signingData == SigningData(b).value.signingData
    ensures SigningData(a).value.data == SigningData(b).value.data
  {
    SigningDataBytes(a);
    SigningDataBytes(b);
    Bech32ToBytesInjective(SigningData(a).value.data, SigningData(b).value.data);
  }

  // ---------------------------------------------------------------------
  // The signature text
  // ---------------------------------------------------------------------

  /**
   * The compact signature and the recovery id text put back together give
   * the signature value; two trailing hex digits give the recovery id.
   */
  lemma {:induction false} RecoverySplit(value: string)
    ensures |value| >= 2 ==> SignatureValue(value) + value[|value| - 2..] == value
    ensures |value| >= 2 ==> |SignatureValue(value)| == |value| - 2
    ensures |value| < 2 ==> SignatureValue(value) == "" && RecoveryId(value) == ParseInt16(value)
    ensures |value| >= 2 && IsHexDigit(value[|value| - 2]) && IsHexDigit(value[|value| - 1]) ==>
      RecoveryId(value) == Some(16 * HexValue(value[|value| - 2]) + HexValue(value[|value| - 1]))
  {
    if |value| >= 2 {
      var c1, c2 := value[|value| - 2], value[|value| - 1];
      assert value[|value| - 2..] == [c1, c2];
      if IsHexDigit(c1) && IsHexDigit(c2) {
        ParseInt16Pair(c1, c2);
      }
    } else {
      assert value[0..] == value;
    }
  }

  /** The result carries the split of the usable signature's value. */
  lemma {:induction false} SignedSignature(inv: DecodedInvoice)
    requires SigningData(inv).Ok?
    ensures UsableSignature(inv.sections).Some?
    ensures
      var value := UsableSignature(inv.sections).value.value.value;
      && SigningData(inv).value.signatureValue == SignatureValue(value)
      && SigningData(inv).value.recoveryId == RecoveryId(value)
  {
  }

  // ---------------------------------------------------------------------
  // The public key
  // ---------------------------------------------------------------------

  /**
   * A key comes back exactly when the signing data was rebuilt and the
   * curve library recovered a key from the digest of its bytes; it is that
   * key in hex, and every earlier failure is passed on unchanged.
   */
  lemma {:induction false} PubkeyOutcome(
    inv: DecodedInvoice,
    sha256: seq<byte> -> seq<byte>,
    recover: (string, Option<int>, seq<byte>) -> Option<seq<byte>>)
    ensures
      var r := GetPubkeyFromSignature(inv, sha256, recover);
      SigningData(inv).Err? ==> r == Err(SigningData(inv).error)
    ensures
      var r := GetPubkeyFromSignature(inv, sha256, recover);
      SigningData(inv).Ok? ==>
        var s := SigningData(inv).value;
        var key := recover(s.signatureValue, s.recoveryId, sha256(DecodeHex(s.signingData)));
        && (r.Ok? <==> key.Some?)
        && (r.Err? ==> r.error == RecoveryFailed)
        && (r.Ok? ==> |r.value| == 2 * |key.value| && DecodeHex(r.value) == key.value)
  {
    if SigningData(inv).Ok? {
      var s := SigningData(inv).value;
      var key := recover(s.signatureValue, s.recoveryId, sha256(DecodeHex(s.signingData)));
      if key.Some? {
        HexRoundTrip(key.value);
      }
    }
  }

  // ---------------------------------------------------------------------
  // The checked reconstruction
  // ---------------------------------------------------------------------

  /** The checked reconstruction agrees with the code as written exactly when that fails or the data part is bech32. */
  lemma {:induction false} CheckedAgrees(inv: DecodedInvoice)
    ensures CheckedSigningData(inv) == SigningData(inv) <==>
      SigningData(inv).Err? || IsBech32(SigningData(inv).value.data)
  {
  }

  /**
   * With the check, two invoices with the same prefix and data parts of
   * the same length that give the same signing data have the same data part.
   */
  lemma {:induction false} CheckedInjective(a: DecodedInvoice, b: DecodedInvoice)
    requires CheckedSigningData(a).Ok? && CheckedSigningData(b).Ok?
    requires CheckedSigningData(a).value.prefix == CheckedSigningData(b).value.prefix
    requires var p := CheckedSigningData(a).value.prefix; forall i :: 0 <= i < |p| ==> 0x10 <= p[i] as int <= 0xFF
    requires |CheckedSigningData(a).value.data| == |CheckedSigningData(b).value.data|
    requires CheckedSigningData(a).value.signingData == CheckedSigningData(b).value.signingData
    ensures CheckedSigningData(a).value.data == CheckedSigningData(b).value.data
  {
    CheckedAgrees(a);
    CheckedAgrees(b);
    SigningDataInjective(a, b);
  }
}
