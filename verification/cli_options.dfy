/**
 * The option-selection and validation rules shared by the maintenance
 * commands `missing`, `recreate quality`, `recreate all`,
 * `fix_bucket_conflict` and `extract_frames`.
 *
 * Click passes an option that was not given as `None`; the commands test
 * options with Python truthiness, so the empty string counts as not given.
 */
module CliOptions {
  import opened Wrappers

  /** Python truthiness of an optional string option. */
  predicate Given(o: Option<string>)
  {
    o.Some? && o.value != ""
  }

  /** Which kind of identifier the transcoding helpers are called with (`type_`). */
  datatype IdType = Recid | Depid

  /** The `(id_type, id_value)` pair a subformat command hands on. */
  datatype Selection = Selection(idType: IdType, value: string)

  /** The `ClickException`s the commands raise, and the resolver's failure. */
  datatype CliError =
    | MissingIdOption                       // neither --recid nor --depid
    | MissingRecidOption                    // fix_bucket_conflict without --recid
    | UnknownQuality(qualities: set<string>)
    | RecordNotFound(recid: string)         // the record resolver raised

  /**
   * `value = recid or depid; type_ = 'recid' if recid else 'depid'`, after
   * the guard that rejects a call with neither option.
   */
  function SelectId(recid: Option<string>, depid: Option<string>): (r: Result<Selection, CliError>)
    ensures r.Err? <==> !Given(recid) && !Given(depid)
    ensures r.Err? ==> r.error == MissingIdOption
    ensures r.Ok? ==> r.value.value != ""
    ensures r.Ok? ==> (r.value.idType == Recid <==> Given(recid))
    ensures r.Ok? && r.value.idType == Recid ==> recid == Some(r.value.value)
    ensures r.Ok? && r.value.idType == Depid ==> depid == Some(r.value.value)
  {
    if !Given(recid) && !Given(depid) then
      Err(MissingIdOption)
    else
      var value := if Given(recid) then recid else depid;
      var idType := if Given(recid) then Recid else Depid;
      Ok(Selection(idType, value.value))
  }

  /** When `--recid` is given, `--depid` has no influence on the selection. */
  lemma RecidTakesPrecedence(recid: Option<string>, depid1: Option<string>, depid2: Option<string>)
    requires Given(recid)
    ensures SelectId(recid, depid1) == SelectId(recid, depid2) == Ok(Selection(Recid, recid.value))
  {
  }

  /** `quality not in qualities` raises; otherwise the requested quality is used. */
  function CheckQuality(quality: string, qualities: set<string>): (r: Result<string, CliError>)
    ensures r.Ok? <==> quality in qualities
    ensures r.Ok? ==> r.value == quality
    ensures r.Err? ==> r.error == UnknownQuality(qualities)
  {
    if quality !in qualities then Err(UnknownQuality(qualities)) else Ok(quality)
  }

  /** The call each subformat command makes into the transcoding subsystem. */
  datatype SubformatRequest =
    | CreateAllMissing(sel: Selection)
    | CreateOne(sel: Selection, quality: string)
    | CreateAll(sel: Selection)

  /** `subformats missing`: the request it makes, or the error it raises first. */
  function MissingCommand(recid: Option<string>, depid: Option<string>): (r: Result<SubformatRequest, CliError>)
    ensures r.Ok? <==> Given(recid) || Given(depid)
    ensures r.Err? ==> r.error == MissingIdOption
    ensures r.Ok? ==> r.value.CreateAllMissing? && SelectId(recid, depid) == Ok(r.value.sel)
  {
    match SelectId(recid, depid)
    case Err(e) => Err(e)
    case Ok(sel) => Ok(CreateAllMissing(sel))
  }

  /**
   * `subformats recreate quality`: the identifier check comes first, then the
   * membership check against the configured quality keys; only when both pass
   * is a subformat requested.
   */
  function QualityCommand(recid: Option<string>, depid: Option<string>, quality: string, qualities: set<string>)
    : (r: Result<SubformatRequest, CliError>)
    ensures r.Ok? <==> (Given(recid) || Given(depid)) && quality in qualities
    ensures !Given(recid) && !Given(depid) ==> r == Err(MissingIdOption)
    ensures (Given(recid) || Given(depid)) && quality !in qualities ==> r == Err(UnknownQuality(qualities))
    ensures r.Ok? ==> r.value.CreateOne? && r.value.quality == quality && SelectId(recid, depid) == Ok(r.value.sel)
  {
    match SelectId(recid, depid)
    case Err(e) => Err(e)
    case Ok(sel) =>
      match CheckQuality(quality, qualities)
      case Err(e) => Err(e)
      case Ok(q) => Ok(CreateOne(sel, q))
  }

  /** `subformats recreate all`. */
  function AllCommand(recid: Option<string>, depid: Option<string>): (r: Result<SubformatRequest, CliError>)
    ensures r.Ok? <==> Given(recid) || Given(depid)
    ensures r.Err? ==> r.error == MissingIdOption
    ensures r.Ok? ==> r.value.CreateAll? && SelectId(recid, depid) == Ok(r.value.sel)
  {
    match SelectId(recid, depid)
    case Err(e) => Err(e)
    case Ok(sel) => Ok(CreateAll(sel))
  }

  /** `fix_bucket_conflict` refuses to run without `--recid`. */
  function RequireRecid(recid: Option<string>): (r: Result<string, CliError>)
    ensures r.Ok? <==> Given(recid)
    ensures r.Ok? ==> recid == Some(r.value)
    ensures r.Err? ==> r.error == MissingRecidOption
  {
    if !Given(recid) then Err(MissingRecidOption) else Ok(recid.value)
  }

  /**
   * The deposit id whose flow `extract_frames` restarts. With `--recid` the
   * record is resolved and its `_deposit.id` is used (whatever `--depid`
   * says); otherwise `--depid` is used as given. `resolver` maps each record
   * pid the resolver knows to its record's `_deposit.id`.
   */
  function ExtractFramesDeposit(recid: Option<string>, depid: Option<string>, resolver: map<string, string>)
    : (r: Result<string, CliError>)
    ensures !Given(recid) && !Given(depid) <==> r == Err(MissingIdOption)
    ensures Given(recid) ==> (r.Ok? <==> recid.value in resolver)
    ensures Given(recid) && r.Ok? ==> r.value == resolver[recid.value]
    ensures Given(recid) && r.Err? ==> r.error == RecordNotFound(recid.value)
    ensures !Given(recid) && Given(depid) ==> r == Ok(depid.value)
  {
    if !Given(recid) && !Given(depid) then
      Err(MissingIdOption)
    else if Given(recid) then
      if recid.value in resolver then Ok(resolver[recid.value]) else Err(RecordNotFound(recid.value))
    else
      Ok(depid.value)
  }

  /** Every command fails, and makes no request, exactly when no identifier is given. */
  lemma NoIdentifierNoRequest(recid: Option<string>, depid: Option<string>, quality: string, qualities: set<string>,
                              resolver: map<string, string>)
    ensures !Given(recid) && !Given(depid) <==> MissingCommand(recid, depid) == Err(MissingIdOption)
    ensures !Given(recid) && !Given(depid) <==> AllCommand(recid, depid) == Err(MissingIdOption)
    ensures !Given(recid) && !Given(depid) ==> QualityCommand(recid, depid, quality, qualities) == Err(MissingIdOption)
    ensures !Given(recid) && !Given(depid) <==> ExtractFramesDeposit(recid, depid, resolver) == Err(MissingIdOption)
  {
  }
}
