/** FlowsInTableService: the flow-statistics multipart request of one table.
    `buildRequest` fills every filter the input leaves out with the value
    that matches everything, and `buildTxCapableResult` answers with nothing
    but the transaction id.

    The match conversion (`ConvertorExecutor.convert` and `MatchInjector`) is
    not part of this model: the converted match is an input and the request
    carries it as given. `RequestInputUtils.createMultipartHeader` is read as
    setting the multipart type, the xid and the version. */
module FlowsInTableService {
  import opened Wrappers
  import opened Bytes
  import MatchEntries

  /** `OFConstants.OFPTT_ALL`: every table. */
  const OFPTT_ALL: int := 0xFF
  /** `OFConstants.OFPP_ANY`: any output port. */
  const OFPP_ANY: int := 0xFFFF_FFFF
  /** `OFConstants.OFPG_ANY`: any output group. */
  const OFPG_ANY: int := 0xFFFF_FFFF
  /** `OFConstants.DEFAULT_COOKIE` and `DEFAULT_COOKIE_MASK`: a zero mask
      ignores the cookie. */
  const DEFAULT_COOKIE: int := 0
  const DEFAULT_COOKIE_MASK: int := 0

  /** `GetFlowStatisticsFromFlowTableInput`: every filter may be null. The out
      port is unsigned 64-bit, the table id 8-bit, the out group 32-bit and the
      cookies 64-bit. */
  datatype FlowTableInput = FlowTableInput(tableId: Option<int>, outPort: Option<int>, outGroup: Option<int>,
                                           cookie: Option<int>, cookieMask: Option<int>)

  datatype MultipartType = OFPMPFLOW

  /** `MultipartRequestFlow`. */
  datatype MultipartRequestFlow = MultipartRequestFlow(tableId: int, outPort: int, outGroup: int, cookie: int,
                                                       cookieMask: int, matchEntries: Option<seq<MatchEntries.MatchEntry>>)

  /** `MultipartRequestInput` with a flow body. */
  datatype MultipartRequestInput = MultipartRequestInput(multipartType: MultipartType, xid: int, version: int,
                                                         body: MultipartRequestFlow)

  /** `longValue()` of an unsigned 64-bit value: the same bits as a signed long. */
  function LongValue(v: int): (w: int)
    requires 0 <= v < 0x1_0000_0000_0000_0000
    ensures -0x8000_0000_0000_0000 <= w < 0x8000_0000_0000_0000
    ensures w % 0x1_0000_0000_0000_0000 == v
  {
    if v < 0x8000_0000_0000_0000 then v else v - 0x1_0000_0000_0000_0000
  }

  /** `Uint32.valueOf(long)`: refuses a value outside 0 .. 2^32 - 1. */
  function Uint32ValueOf(w: int): (r: Result<int>)
    ensures r.Ok? <==> IsU32(w)
    ensures r.Ok? ==> r.value == w
  {
    if 0 <= w < 0x1_0000_0000 then Ok(w) else Err(IllegalArgument)
  }

  /** An input whose filters have the widths of their YANG types. */
  predicate ValidInput(input: FlowTableInput) {
    && (input.tableId.Some? ==> IsU8(input.tableId.value))
    && (input.outPort.Some? ==> 0 <= input.outPort.value < 0x1_0000_0000_0000_0000)
    && (input.outGroup.Some? ==> IsU32(input.outGroup.value))
    && (input.cookie.Some? ==> 0 <= input.cookie.value < 0x1_0000_0000_0000_0000)
    && (input.cookieMask.Some? ==> 0 <= input.cookieMask.value < 0x1_0000_0000_0000_0000)
  }

  /** `buildRequest` for the service's `version`, the request's `xid` and the
      converted match. */
  function BuildRequest(xid: int, version: int, input: FlowTableInput,
                        conversionMatch: Option<seq<MatchEntries.MatchEntry>>): Result<MultipartRequestInput>
    requires ValidInput(input)
  {
    var tableId := if input.tableId.Some? then input.tableId.value else OFPTT_ALL;
    var outPort :- if input.outPort.Some? then Uint32ValueOf(LongValue(input.outPort.value)) else Ok(OFPP_ANY);
    var outGroup := if input.outGroup.Some? then input.outGroup.value else OFPG_ANY;
    var cookie := if input.cookie.Some? then input.cookie.value else DEFAULT_COOKIE;
    var cookieMask := if input.cookieMask.Some? then input.cookieMask.value else DEFAULT_COOKIE_MASK;
    Ok(MultipartRequestInput(OFPMPFLOW, xid, version,
                             MultipartRequestFlow(tableId, outPort, outGroup, cookie, cookieMask, conversionMatch)))
  }

  /** The request fails exactly when the input names an out port that does not
      fit 32 bits; otherwise it is a flow multipart with the given xid and
      version, each filter is the input's or its wildcard, and the converted
      match is carried unchanged. */
  lemma BuildRequestFields(xid: int, version: int, input: FlowTableInput,
                           conversionMatch: Option<seq<MatchEntries.MatchEntry>>)
    requires ValidInput(input)
    ensures var r := BuildRequest(xid, version, input, conversionMatch);
      && (r.Err? <==> input.outPort.Some? && input.outPort.value >= 0x1_0000_0000)
      && (r.Err? ==> r.error == IllegalArgument)
      && (r.Ok? ==>
        && r.value.multipartType == OFPMPFLOW && r.value.xid == xid && r.value.version == version
        && r.value.body.tableId == input.tableId.GetOr(OFPTT_ALL)
        && r.value.body.outPort == input.outPort.GetOr(OFPP_ANY)
        && r.value.body.outGroup == input.outGroup.GetOr(OFPG_ANY)
        && r.value.body.cookie == input.cookie.GetOr(DEFAULT_COOKIE)
        && r.value.body.cookieMask == input.cookieMask.GetOr(DEFAULT_COOKIE_MASK)
        && r.value.body.matchEntries == conversionMatch)
  {
  }

  /** A filter set to its wildcard asks for the same request as a filter left
      out: the defaults are the wildcards themselves. */
  lemma WildcardsAreDefaults(xid: int, version: int, conversionMatch: Option<seq<MatchEntries.MatchEntry>>)
    ensures BuildRequest(xid, version, FlowTableInput(None, None, None, None, None), conversionMatch)
      == BuildRequest(xid, version,
                      FlowTableInput(Some(OFPTT_ALL), Some(OFPP_ANY), Some(OFPG_ANY), Some(DEFAULT_COOKIE),
                                     Some(DEFAULT_COOKIE_MASK)),
                      conversionMatch)
  {
  }

  /** The input that names every filter of a request. */
  function InputOf(body: MultipartRequestFlow): FlowTableInput {
    FlowTableInput(Some(body.tableId), Some(body.outPort), Some(body.outGroup), Some(body.cookie),
                   Some(body.cookieMask))
  }

  /** Building again from the filters of a request gives the same request:
      a built request is a fixed point of `buildRequest`. */
  lemma RebuildIsSame(xid: int, version: int, input: FlowTableInput,
                      conversionMatch: Option<seq<MatchEntries.MatchEntry>>)
    requires ValidInput(input)
    requires BuildRequest(xid, version, input, conversionMatch).Ok?
    ensures var req := BuildRequest(xid, version, input, conversionMatch).value;
      ValidInput(InputOf(req.body)) && BuildRequest(xid, version, InputOf(req.body), conversionMatch) == Ok(req)
  {
  }

  /** `GetFlowStatisticsFromFlowTableOutput`: the transaction id and the
      statistics list, which the tx-capable result leaves null. */
  datatype FlowTableOutput = FlowTableOutput(transactionId: Option<int>, flowAndStatisticsMapList: Option<seq<int>>)

  /** `buildTxCapableResult`. */
  function BuildTxCapableResult(emulatedTxId: int): (r: FlowTableOutput)
    ensures r.transactionId == Some(emulatedTxId) && r.flowAndStatisticsMapList == None
  {
    FlowTableOutput(Some(emulatedTxId), None)
  }
}
