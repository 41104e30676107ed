/** What the backend may answer, and how its answers are read. */
module Backend {
  import opened Wrappers
  import opened Hex
  import opened Host

  /** A JSON body in the backend's envelope, with the string fields of its data, or no JSON. */
  datatype Body = NotJson | Envelope(success: bool, data: Option<map<string, string>>)
  datatype Reply = Reply(status: nat, body: Body)

  /** A reply is an error from status 400 on; its envelope is not looked at. */
  predicate Fetched(r: Reply) {
    r.status < 400
  }

  function ResponseData(r: Reply): Option<map<string, string>> {
    if r.body.Envelope? && r.body.success then r.body.data else None
  }

  /** Without a leading `0x`. */
  function Bare(s: string): string {
    if "0x" <= s then s[2..] else s
  }

  const ADDRESS_LENGTH := 20
  const SELECTOR_LENGTH := 4
  const WORD_LENGTH := 32
  const HASH_LENGTH := 32

  /** The recipient is a 20-byte hex address, and not an agent id. */
  predicate IsAddress(to: string) {
    |Bare(to)| == 2 * ADDRESS_LENGTH && HexDecode(Bare(to)).Some?
  }

  /** The calldata's first argument, right-aligned in its word, is the address asked for. */
  predicate PaysTo(calldataHex: string, to: string)
    requires IsAddress(to)
  {
    var calldata := HexDecode(Bare(calldataHex));
    && calldata.Some? && |calldata.value| >= SELECTOR_LENGTH + WORD_LENGTH
    && calldata.value[SELECTOR_LENGTH + WORD_LENGTH - ADDRESS_LENGTH..SELECTOR_LENGTH + WORD_LENGTH]
       == HexDecode(Bare(to)).value
  }

  predicate IsHash(hex: string) {
    HexDecode(Bare(hex)).Some? && |HexDecode(Bare(hex)).value| == HASH_LENGTH
  }

  /** A prepared transaction the flow goes on to sign. */
  predicate Acceptable(prepare: Reply, to: string) {
    && Fetched(prepare) && ResponseData(prepare).Some?
    && var data := ResponseData(prepare).value;
    && "tx_id" in data && "user_op_hash" in data
    && (IsAddress(to) ==> "calldata" in data && PaysTo(data["calldata"], to))
    && IsHash(data["user_op_hash"])
  }

  predicate Submitted(submit: Reply) {
    Fetched(submit) && ResponseData(submit).Some? && "tx_hash" in ResponseData(submit).value
  }

  // ---------- acceptable, by the text of the reply ----------

  lemma BareExactly(s: string)
    ensures Bare("0x" + s) == s
    ensures !("0x" <= s) ==> Bare(s) == s
  {
    assert ("0x" + s)[2..] == s;
  }

  lemma IsAddressExactly(to: string)
    ensures IsAddress(to) <==> IsHex(Bare(to)) && |Bare(to)| == 40
  {
    IsHexExactly(Bare(to));
  }

  lemma IsHashExactly(hex: string)
    ensures IsHash(hex) <==> IsHex(Bare(hex)) && |Bare(hex)| == 64
  {
    IsHexExactly(Bare(hex));
  }

  lemma PaysToExactly(calldata: string, to: string)
    requires IsAddress(to)
    ensures |Bare(to)| == 40
    ensures PaysTo(calldata, to) <==>
              && IsHex(Bare(calldata)) && |Bare(calldata)| >= 72
              && Lowered(Bare(calldata)[32..72]) == Lowered(Bare(to))
  {
    IsHexExactly(Bare(calldata));
    if HexDecode(Bare(calldata)).Some? && |Bare(calldata)| >= 72 {
      SamePart(Bare(calldata), Bare(to));
    }
  }

  lemma SamePart(calldata: string, address: string)
    requires HexDecode(calldata).Some? && HexDecode(address).Some? && |calldata| >= 72 && |address| == 40
    ensures |HexDecode(calldata).value| >= 36
    ensures HexDecode(calldata).value[16..36] == HexDecode(address).value <==>
            Lowered(calldata[32..72]) == Lowered(address)
  {
    var data, requested := HexDecode(calldata).value, HexDecode(address).value;
    HexDecodeExactly(calldata, data);
    HexDecodeExactly(address, requested);
    SliceIsSpelled(calldata, data, 16, 36);
    SameSpelling(calldata[32..72], data[16..36], address, requested);
  }

  /** Exactly which preparations the flow goes on to sign, by the text of their fields. A preparation
      for a hex address spells that address in characters 32 to 71 of its calldata, but for capital
      letters. */
  lemma AcceptableExactly(prepare: Reply, to: string)
    ensures Acceptable(prepare, to) <==>
              && prepare.status < 400
              && prepare.body.Envelope? && prepare.body.success && prepare.body.data.Some?
              && var data := prepare.body.data.value;
              && "tx_id" in data && "user_op_hash" in data
              && IsHex(Bare(data["user_op_hash"])) && |Bare(data["user_op_hash"])| == 64
              && (IsHex(Bare(to)) && |Bare(to)| == 40 ==>
                    && "calldata" in data && IsHex(Bare(data["calldata"])) && |Bare(data["calldata"])| >= 72
                    && Lowered(Bare(data["calldata"])[32..72]) == Lowered(Bare(to)))
  {
    IsAddressExactly(to);
    if ResponseData(prepare).Some? && "user_op_hash" in ResponseData(prepare).value {
      IsHashExactly(ResponseData(prepare).value["user_op_hash"]);
      if IsAddress(to) && "calldata" in ResponseData(prepare).value {
        PaysToExactly(ResponseData(prepare).value["calldata"], to);
      }
    }
  }

  lemma AddressIsBare(to: string, address: string)
    requires (to == "0x" + address || to == address) && |address| == 40 && IsHex(address)
    ensures Bare(to) == address
  {
    BareHex(address);
    BareExactly(address);
  }

  lemma PrefixOrNone(hex: string)
    ensures hex == "0x" + Bare(hex) || hex == Bare(hex)
  {
  }

  lemma SameDigit(calldata: string, address: string, k: nat)
    requires |calldata| >= 72 && |address| == 40 && k < 40
    requires Lowered(calldata[32..72]) == Lowered(address)
    ensures Lower(calldata[32 + k]) == Lower(address[k])
  {
    assert Lowered(calldata[32..72])[k] == Lower(calldata[32..72][k]);
    assert Lowered(address)[k] == Lower(address[k]);
  }

  /** So the calldata of an acceptable preparation spells the hex address asked for, with or without
      the prefix on either: digit `2 * j` and the next one, which are those of byte `j` of the
      address, are the digits of byte `16 + j` of the calldata. */
  lemma AcceptedCalldataSpellsRecipient(prepare: Reply, to: string, address: string, j: nat, b: nat)
    returns (calldata: string)
    requires Acceptable(prepare, to) && (to == "0x" + address || to == address)
    requires |address| == 40 && IsHex(address)
    requires j < 20 && b < 2
    ensures prepare.body.Envelope? && prepare.body.data.Some? && "calldata" in prepare.body.data.value
    ensures var hex := prepare.body.data.value["calldata"]; hex == "0x" + calldata || hex == calldata
    ensures |calldata| >= 72 && Lower(calldata[2 * (16 + j) + b]) == Lower(address[2 * j + b])
  {
    AddressIsBare(to, address);
    AcceptableExactly(prepare, to);
    var hex := prepare.body.data.value["calldata"];
    calldata := Bare(hex);
    PrefixOrNone(hex);
    SameDigit(calldata, address, 2 * j + b);
  }

  lemma ZerosAreHex(n: nat)
    ensures var zeros := seq(2 * n, _ => '0'); IsHex(zeros) && (n > 0 ==> Bare(zeros) == zeros)
  {
    var zeros := seq(2 * n, _ => '0');
    assert n > 0 ==> zeros[1] == '0';
  }

  lemma PaddedAddress(address: string)
    requires IsHex(address) && |address| == 40
    ensures var calldata := seq(2 * 16, _ => '0') + address;
            IsHex(calldata) && Bare(calldata) == calldata && |calldata| == 72 && calldata[32..72] == address
  {
    ZerosAreHex(16);
    var zeros := seq(2 * 16, _ => '0');
    var calldata := zeros + address;
    assert calldata[1] == zeros[1] == '0';
    forall i | 0 <= i < |calldata|
      ensures IsHexDigit(calldata[i])
    {
      assert calldata[i] == if i < 32 then zeros[i] else address[i - 32];
    }
  }

  /** Whoever is to be paid, some preparation is acceptable. */
  lemma SomePreparation(to: string) returns (prepare: Reply)
    ensures Acceptable(prepare, to)
  {
    var hash, calldata := seq(2 * 32, _ => '0'), seq(2 * 16, _ => '0') + Bare(to);
    var data := map["tx_id" := "", "user_op_hash" := hash, "calldata" := calldata];
    prepare := Reply(200, Envelope(true, Some(data)));
    FieldsDiffer();
    assert data["user_op_hash"] == hash && data["calldata"] == calldata;
    ZerosAreHex(32);
    if IsHex(Bare(to)) && |Bare(to)| == 40 {
      PaddedAddress(Bare(to));
    }
    AcceptableExactly(prepare, to);
  }

  // ---------- what is signed ----------

  /** The same envelope with another hash to sign. */
  function WithHash(prepare: Reply, hex: string): Reply
    requires ResponseData(prepare).Some?
  {
    prepare.(body := prepare.body.(data := Some(ResponseData(prepare).value["user_op_hash" := hex])))
  }

  /** The transaction id, and the bytes the session key signs. */
  function Preparation(prepare: Reply, to: string): (string, Bytes)
    requires Acceptable(prepare, to)
  {
    var data := ResponseData(prepare).value;
    (data["tx_id"], HexDecode(Bare(data["user_op_hash"])).value)
  }

  /** An acceptable preparation stays acceptable with any other 32-byte hash. */
  lemma AnyHashIsAccepted(prepare: Reply, to: string, hex: string)
    requires Acceptable(prepare, to) && IsHash(hex)
    ensures Acceptable(WithHash(prepare, hex), to)
    ensures Preparation(WithHash(prepare, hex), to).1 == HexDecode(Bare(hex)).value
    ensures forall key :: key in ResponseData(prepare).value && key != "user_op_hash" ==>
              ResponseData(WithHash(prepare, hex)).value[key] == ResponseData(prepare).value[key]
  {
    var data, other := ResponseData(prepare).value, ResponseData(WithHash(prepare, hex)).value;
    assert other == data["user_op_hash" := hex];
    FieldsDiffer();
  }

  lemma FieldsDiffer()
    ensures "calldata" != "user_op_hash" && "tx_id" != "user_op_hash" && "calldata" != "tx_id"
  {
    assert "calldata"[0] == 'c' && "tx_id"[0] == 't' && "user_op_hash"[0] == 'u';
  }

  lemma EncodedIsHash(hash: Bytes)
    requires |hash| == 32
    ensures IsHash(HexEncode(hash)) && Bare(HexEncode(hash)) == HexEncode(hash)
    ensures HexDecode(HexEncode(hash)) == Some(hash)
  {
    EncodedIsHex(hash);
    BareHex(HexEncode(hash));
    DecodeInvertsEncode(hash);
  }

  lemma BareHex(hex: string)
    requires IsHex(hex) && |hex| >= 2
    ensures Bare(hex) == hex
  {
    assert hex[1] != 'x';
  }

  /** Nothing ties what is signed to the calldata that was checked: whatever 32 bytes are to be signed,
      some acceptable preparation with the same calldata has them signed. */
  lemma SignedHashIsFree(prepare: Reply, to: string, hash: Bytes) returns (other: Reply)
    requires Acceptable(prepare, to) && |hash| == 32
    ensures Acceptable(other, to) && Preparation(other, to).1 == hash
    ensures var data, data' := ResponseData(prepare).value, ResponseData(other).value;
            forall key :: key in data && key != "user_op_hash" ==> key in data' && data'[key] == data[key]
  {
    EncodedIsHash(hash);
    AnyHashIsAccepted(prepare, to, HexEncode(hash));
    other := WithHash(prepare, HexEncode(hash));
  }
}
