/** The message a transaction signature covers, and the access control on it (src/tx_signer/sign_msg.rs). */
module SignMsg {
  import opened Base

  type Json = string
  type TypeName = string

  datatype Msg = Msg(typeName: TypeName, body: Json)

  /** The Amino schema, as far as the signer uses it: how one JSON value becomes a message. */
  type Schema = Json -> Option<Msg>

  datatype TxRequest = TxRequest(chainId: string, fee: Json, memo: string, msgs: seq<Json>)

  /** `create_sign_msg` renders exactly these parts. */
  datatype Repr = Repr(sequence: nat, fee: Json, memo: string, msgs: seq<Msg>)

  datatype SignMsg = SignMsg(fee: Json, memo: string, msgs: seq<Msg>, msgTypes: set<TypeName>, repr: Repr)

  /** Every value parses, and `msgs` are the results in order. */
  ghost predicate ParsedBy(schema: Schema, values: seq<Json>, msgs: seq<Msg>) {
    |values| == |msgs| && forall i :: 0 <= i < |values| ==> schema(values[i]) == Some(msgs[i])
  }

  ghost predicate Parses(schema: Schema, values: seq<Json>) {
    forall i :: 0 <= i < |values| ==> schema(values[i]).Some?
  }

  ghost function TypesOf(msgs: seq<Msg>): set<TypeName> {
    set i | 0 <= i < |msgs| :: msgs[i].typeName
  }

  /** Built from this request for this sequence number, with its types collected completely. */
  ghost predicate BuiltFrom(m: SignMsg, schema: Schema, req: TxRequest, sequence: nat) {
    && ParsedBy(schema, req.msgs, m.msgs)
    && m.fee == req.fee && m.memo == req.memo
    && m.msgTypes == TypesOf(m.msgs)
    && m.repr == Repr(sequence, req.fee, req.memo, m.msgs)
  }

  /** The one message built from a request that parses. */
  ghost function Build(schema: Schema, req: TxRequest, sequence: nat): (m: SignMsg)
    requires Parses(schema, req.msgs)
    ensures BuiltFrom(m, schema, req, sequence)
  {
    var msgs := seq(|req.msgs|, i requires 0 <= i < |req.msgs| => schema(req.msgs[i]).value);
    SignMsg(req.fee, req.memo, msgs, TypesOf(msgs), Repr(sequence, req.fee, req.memo, msgs))
  }

  /** `SignMsg::new`: fails exactly if some message does not parse. */
  method New(schema: Schema, req: TxRequest, sequence: nat) returns (r: Option<SignMsg>)
    ensures r.Some? <==> Parses(schema, req.msgs)
    ensures r.Some? ==> BuiltFrom(r.value, schema, req, sequence) && r.value == Build(schema, req, sequence)
  {
    var msgs: seq<Msg> := [];
    var types: set<TypeName> := {};
    for i := 0 to |req.msgs|
      invariant ParsedBy(schema, req.msgs[..i], msgs)
      invariant types == TypesOf(msgs)
    {
      var msg := schema(req.msgs[i]);
      if msg.None? {
        return None;
      }
      ghost var before := msgs;
      types := types + {msg.value.typeName};
      msgs := msgs + [msg.value];
      assert TypesOf(msgs) == TypesOf(before) + {msg.value.typeName} by {
        assert msgs[|before|] == msg.value;
        forall t | t in TypesOf(before) ensures t in TypesOf(msgs) {
          var j :| 0 <= j < |before| && before[j].typeName == t;
          assert msgs[j].typeName == t;
        }
      }
      assert req.msgs[..i + 1] == req.msgs[..i] + [req.msgs[i]];
    }
    assert req.msgs[..|req.msgs|] == req.msgs;
    r := Some(SignMsg(req.fee, req.memo, msgs, types, Repr(sequence, req.fee, req.memo, msgs)));
    RetriesDifferOnlyInSequence(schema, req, r.value, sequence, Build(schema, req, sequence), sequence);
  }

  /** All messages, not only all collected types, are allowed. */
  ghost predicate Allowed(m: SignMsg, acl: set<TypeName>) {
    forall i :: 0 <= i < |m.msgs| ==> m.msgs[i].typeName in acl
  }

  /** `authorize`: go through the types, stop at the first that is not allowed. */
  method Authorize(m: SignMsg, acl: set<TypeName>) returns (ok: bool)
    requires m.msgTypes == TypesOf(m.msgs)
    ensures ok <==> Allowed(m, acl)
  {
    var todo := m.msgTypes;
    while todo != {}
      invariant todo <= m.msgTypes
      invariant m.msgTypes - todo <= acl
      decreases |todo|
    {
      var t :| t in todo;
      if t !in acl {
        return false;
      }
      todo := todo - {t};
    }
    forall i | 0 <= i < |m.msgs| ensures m.msgs[i].typeName in acl {
      assert m.msgs[i].typeName in m.msgTypes;
    }
    return true;
  }

  /** Two builds from one request differ in the sequence number alone. */
  lemma RetriesDifferOnlyInSequence(schema: Schema, req: TxRequest, a: SignMsg, s: nat, b: SignMsg, t: nat)
    requires BuiltFrom(a, schema, req, s) && BuiltFrom(b, schema, req, t)
    ensures b == a.(repr := a.repr.(sequence := t))
  {
  }
}
