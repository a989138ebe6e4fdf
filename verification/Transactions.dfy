/** The transaction identifiers of a TCP client. */
module Transactions {
  import opened Bytes
  import opened Protocol
  import opened Memory
  import opened Server
  import opened Client
  import opened EndToEnd

  /** `_modbus_tcp_build_request_basis` increments the counter, and wraps it to zero. */
  function NextTid(t: word): word { if t < 0xFFFF then t + 1 else 0 }

  /** The identifier of the `n`-th request after the counter stood at `t`. */
  function TidAfter(t: word, n: nat): word
    decreases n
  {
    if n == 0 then t else NextTid(TidAfter(t, n - 1))
  }

  lemma {:induction false} TidFormula(t: word, n: nat)
    ensures TidAfter(t, n) == (t + n) % 0x1_0000
  {
    if n > 0 {
      TidFormula(t, n - 1);
      NextModulo(t + n - 1);
    }
  }

  lemma NextModulo(a: nat)
    ensures NextTid(a % 0x1_0000) == (a + 1) % 0x1_0000
  {
  }

  /** Two requests carry the same identifier exactly when a multiple of 65536 requests lies between them. */
  lemma TidRepeatsIff(t: word, i: nat, j: nat)
    requires i <= j
    ensures TidAfter(t, i) == TidAfter(t, j) <==> (j - i) % 0x1_0000 == 0
  {
    TidFormula(t, i);
    TidFormula(t, j);
    SameRest(t + i, j - i);
  }

  lemma SameRest(a: nat, d: nat)
    ensures a % 0x1_0000 == (a + d) % 0x1_0000 <==> d % 0x1_0000 == 0
  {
    var k := (a + d) / 0x1_0000 - a / 0x1_0000 - d / 0x1_0000;
    assert 0x1_0000 * k == a % 0x1_0000 + d % 0x1_0000 - (a + d) % 0x1_0000;
  }

  /** While waiting for the answer to request `j`, the server's answer to request `i` of the same run is
      rejected for its identifier exactly when the requests are not a multiple of 65536 apart: any of the
      previous 65535 is, and the genuine answer never. */
  lemma LateReply(t: word, i: nat, j: nat, q: Request, q': Request, slave: byte, slave': byte,
                  m: Memory, version: seq<byte>, answerBroadcast: bool)
    requires i <= j && ClientBuilt(q) && ClientBuilt(q') && |version| <= MAX_VERSION
    ensures var mine := ClientFrame(Tcp, TidAfter(t, j), slave, q);
      var late := ClientFrame(Tcp, TidAfter(t, i), slave', q');
      var sent := Reply(Tcp, answerBroadcast, version, m, late).1;
      |sent| == 1 && PreCheck(Tcp, mine, sent[0]) == if (j - i) % 0x1_0000 == 0 then 0 else EMBBADDATA
  {
    TidRepeatsIff(t, i, j);
    RequestServed(Tcp, answerBroadcast, TidAfter(t, i), slave', q', m, version);
    EncodedComplete(q);
    var r := ResponsePdu(EncodePdu(q'), Execute(q', m).0, version);
    PreCheckOfSeals(TidAfter(t, j), slave, EncodePdu(q), TidAfter(t, i), slave', r);
    WordsDiffer(TidAfter(t, i), TidAfter(t, j));
  }

  lemma WordsDiffer(a: word, b: word)
    ensures a == b <==> Hi(a) == Hi(b) && Lo(a) == Lo(b)
  {
  }

  lemma PreCheckOfSeals(a: word, slave: byte, p: seq<byte>, b: word, slave': byte, r: seq<byte>)
    requires |p| <= MAX_PDU_LENGTH && |r| <= MAX_PDU_LENGTH
    ensures PreCheck(Tcp, Seal(Tcp, Prefix(Tcp, a), slave, p), Seal(Tcp, Prefix(Tcp, b), slave', r))
         == if Hi(a) == Hi(b) && Lo(a) == Lo(b) then 0 else EMBBADDATA
  {
    var req, rsp := Seal(Tcp, Prefix(Tcp, a), slave, p), Seal(Tcp, Prefix(Tcp, b), slave', r);
    assert req[0] == req[..4][0] && req[1] == req[..4][1];
    assert rsp[0] == rsp[..4][0] && rsp[1] == rsp[..4][1] && rsp[2] == rsp[..4][2] && rsp[3] == rsp[..4][3];
  }
}
