/**
 The S3-triggered Lambda handler that converts an uploaded CSV object to
 Parquet. The handler is a pure function here: every call it makes into S3,
 the UTF-8 codec, pandas or pyarrow is replaced by the outcome that call has,
 given up front, and the handler returns its response together with the
 library stages it ran and the storage calls it issued, in order.
 */
module LambdaFunction {
  import opened PyStr
  import opened ObjectKeys

  /** The bucket every Parquet object is written to, a literal in the handler. */
  const DestinationBucket: string := "pgi-parquet-output-bucket"

  /** The response body when the guard rejects the key. */
  const NotCsvBody: string := "Uploaded file is not a CSV."

  type Bytes = seq<bv8>

  /** A pandas DataFrame; its contents are not modelled. */
  datatype DataFrame = DataFrame(handle: nat)

  /** A pyarrow Table; its contents are not modelled. */
  datatype ArrowTable = ArrowTable(handle: nat)

  /** What one external call does: return a value, or raise an exception
      whose `str(e)` is `message`. */
  datatype Step<T> = Ok(value: T) | Raised(message: string)

  /** The outcome each external call has when the handler reaches it. */
  datatype Outcomes = Outcomes(
    getObject: Step<Bytes>,       // s3.get_object(...)['Body'].read()
    decodeUtf8: Step<string>,     // .decode('utf-8')
    readCsv: Step<DataFrame>,     // pd.read_csv(StringIO(...))
    fromPandas: Step<ArrowTable>, // pa.Table.from_pandas(df)
    writeTable: Step<Bytes>,      // pq.write_table(...) then getvalue()
    putObject: Step<()>)          // s3.put_object(...)

  /** The external stages, in the order the handler runs them. */
  datatype Stage = Fetch | Decode | Parse | ToArrow | Serialize | Upload

  /** `Upload` is the last stage: `put_object` is reached only when every
      stage before it returned. */
  const Pipeline: seq<Stage> := [Fetch, Decode, Parse, ToArrow, Serialize, Upload]

  /** A request the handler sends to S3. */
  datatype StorageCall =
    | GetObject(bucket: string, key: string)
    | PutObject(bucket: string, key: string, body: Bytes)

  /** A field of the notification that may be missing. */
  datatype Field = Present(text: string) | Absent

  /** The two fields read from a notification record:
      `['s3']['bucket']['name']` and `['s3']['object']['key']`. */
  datatype S3Record = S3Record(bucketName: Field, objectKey: Field)

  /** The Lambda event: its `Records` list. */
  datatype Notification = Notification(records: seq<S3Record>)

  /** The dictionary the handler returns. */
  datatype Response = Response(statusCode: int, body: string)

  /** One invocation: it returns a response, or it crashes with an exception
      escaping the handler. */
  datatype Invocation =
    | Returned(response: Response, stages: seq<Stage>, calls: seq<StorageCall>)
    | Crashed

  function ErrorBody(key: string, message: string): string {
    "Error processing file " + key + ": " + message
  }

  function SuccessBody(key: string, bucket: string, parquetKey: string): string {
    "Successfully converted " + key + " to Parquet and uploaded to " + bucket + "/" + parquetKey
  }

  /** The first record carries both fields the handler reads. */
  predicate WellFormed(event: Notification) {
    && |event.records| > 0
    && event.records[0].bucketName.Present?
    && event.records[0].objectKey.Present?
  }

  function SourceBucket(event: Notification): string
    requires WellFormed(event)
  {
    event.records[0].bucketName.text
  }

  function ObjectKey(event: Notification): string
    requires WellFormed(event)
  {
    event.records[0].objectKey.text
  }

  /** The storage calls of one invocation are a prefix of: a read of the
      object named in the event, then a write of the Parquet key to the
      destination bucket. */
  predicate CallsInOrder(calls: seq<StorageCall>, sourceBucket: string, key: string) {
    && |calls| <= 2
    && (|calls| >= 1 ==> calls[0] == GetObject(sourceBucket, key))
    && (|calls| == 2 ==>
          calls[1].PutObject? && calls[1].bucket == DestinationBucket && calls[1].key == DestinationKey(key))
  }

  /** `lambda_handler(event, context)`. A notification whose first record
      lacks the bucket name or the key makes the handler crash: the `except`
      block formats the body with `object_key`, which was never bound, and
      raises UnboundLocalError. */
  function LambdaHandler(event: Notification, world: Outcomes): (inv: Invocation)
    ensures inv.Crashed? <==> !WellFormed(event)
    ensures WellFormed(event) ==> inv == Convert(SourceBucket(event), ObjectKey(event), world)
  {
    if |event.records| == 0 then Crashed
    else
      match event.records[0]
      case S3Record(Present(bucket), Present(key)) => Convert(bucket, key, world)
      case _ => Crashed
  }

  /** The body of the `try` block once the bucket and the key are known. */
  function Convert(sourceBucket: string, key: string, world: Outcomes): (inv: Invocation)
    ensures inv.Returned?
    ensures inv.response.statusCode in {200, 400, 500}
    ensures inv.response.statusCode == 400 <==> !IsCsvKey(key)
    ensures !IsCsvKey(key) ==> inv.response.body == NotCsvBody && inv.stages == [] && inv.calls == []
    ensures CallsInOrder(inv.calls, sourceBucket, key)
    ensures |inv.stages| <= |Pipeline| && inv.stages == Pipeline[..|inv.stages|]
    ensures IsCsvKey(key) ==> |inv.stages| > 0 && |inv.calls| == (if Upload in inv.stages then 2 else 1)
    ensures inv.response.statusCode == 200 ==>
      && inv.stages == Pipeline
      && inv.response.body == SuccessBody(key, DestinationBucket, DestinationKey(key))
    ensures inv.response.statusCode == 500 ==>
      exists message :: inv.response.body == ErrorBody(key, message)
  {
    if !IsCsvKey(key) then Returned(Response(400, NotCsvBody), [], [])
    else
      var fetch := [GetObject(sourceBucket, key)];
      match world.getObject
      case Raised(e) => Returned(Response(500, ErrorBody(key, e)), [Fetch], fetch)
      case Ok(_) =>
      match world.decodeUtf8
      case Raised(e) => Returned(Response(500, ErrorBody(key, e)), [Fetch, Decode], fetch)
      case Ok(_) =>
      match world.readCsv
      case Raised(e) => Returned(Response(500, ErrorBody(key, e)), [Fetch, Decode, Parse], fetch)
      case Ok(_) =>
      match world.fromPandas
      case Raised(e) => Returned(Response(500, ErrorBody(key, e)), [Fetch, Decode, Parse, ToArrow], fetch)
      case Ok(_) =>
      match world.writeTable
      case Raised(e) => Returned(Response(500, ErrorBody(key, e)), [Fetch, Decode, Parse, ToArrow, Serialize], fetch)
      case Ok(buffer) =>
      var parquetKey := DestinationKey(key);
      var calls := fetch + [PutObject(DestinationBucket, parquetKey, buffer)];
      match world.putObject
      case Raised(e) => Returned(Response(500, ErrorBody(key, e)), Pipeline, calls)
      case Ok(_) => Returned(Response(200, SuccessBody(key, DestinationBucket, parquetKey)), Pipeline, calls)
  }

  /** Whether a stage's call returned, or the text of what it raised. */
  datatype Verdict = Passed | Failed(message: string)

  function VerdictOf<T>(step: Step<T>): Verdict {
    match step
    case Ok(_) => Passed
    case Raised(e) => Failed(e)
  }

  /** The verdict of every stage, in pipeline order. */
  function Verdicts(world: Outcomes): (vs: seq<Verdict>)
    ensures |vs| == |Pipeline|
  {
    [VerdictOf(world.getObject), VerdictOf(world.decodeUtf8), VerdictOf(world.readCsv),
     VerdictOf(world.fromPandas), VerdictOf(world.writeTable), VerdictOf(world.putObject)]
  }

  /** The index of the first failed verdict, or `|vs|` when none failed. */
  function FirstFailure(vs: seq<Verdict>): (k: nat)
    ensures k <= |vs|
    ensures forall i :: 0 <= i < k ==> vs[i] == Passed
    ensures k < |vs| ==> vs[k].Failed?
  {
    if |vs| == 0 then 0
    else if vs[0].Failed? then 0
    else 1 + FirstFailure(vs[1..])
  }

  /** The handler against the stage-list view: it runs the stages up to and
      including the first that raises, answers 500 with that exception's
      text, and answers 200 only when none raises. `put_object` is issued
      exactly when every stage before the upload passed. */
  lemma ConvertStopsAtFirstFailure(sourceBucket: string, key: string, world: Outcomes)
    requires IsCsvKey(key)
    ensures var k := FirstFailure(Verdicts(world));
      var inv := Convert(sourceBucket, key, world);
      && (k < |Pipeline| ==> inv.stages == Pipeline[..k + 1])
      && (k < |Pipeline| ==> inv.response == Response(500, ErrorBody(key, Verdicts(world)[k].message)))
      && (k == |Pipeline| ==> inv.stages == Pipeline)
      && (k == |Pipeline| ==> inv.response == Response(200, SuccessBody(key, DestinationBucket, DestinationKey(key))))
      && (k < |Pipeline| - 1 ==> inv.calls == [GetObject(sourceBucket, key)])
      && (k >= |Pipeline| - 1 ==> world.writeTable.Ok?)
      && (k >= |Pipeline| - 1 ==> inv.calls == [GetObject(sourceBucket, key),
                                   PutObject(DestinationBucket, DestinationKey(key), world.writeTable.value)])
  {
    var vs := Verdicts(world);
    FirstFailureOfPipeline(vs);
  }

  /** `FirstFailure` on a list as long as the pipeline, spelled out. */
  lemma FirstFailureOfPipeline(vs: seq<Verdict>)
    requires |vs| == |Pipeline|
    ensures FirstFailure(vs) ==
      if vs[0].Failed? then 0
      else if vs[1].Failed? then 1
      else if vs[2].Failed? then 2
      else if vs[3].Failed? then 3
      else if vs[4].Failed? then 4
      else if vs[5].Failed? then 5
      else 6
  {
    assert vs[1..][0] == vs[1];
    assert vs[1..][1..][0] == vs[2];
    assert vs[1..][1..][1..][0] == vs[3];
    assert vs[1..][1..][1..][1..][0] == vs[4];
    assert vs[1..][1..][1..][1..][1..][0] == vs[5];
    assert vs[1..][1..][1..][1..][1..][1..] == [];
  }

  /** Only the first record is consulted: the records after it never change
      the outcome. */
  lemma OnlyFirstRecordCounts(first: S3Record, rest: seq<S3Record>, rest': seq<S3Record>, world: Outcomes)
    ensures LambdaHandler(Notification([first] + rest), world)
         == LambdaHandler(Notification([first] + rest'), world)
  {
  }

  /** The Parquet object goes to the fixed bucket under the same key
      whichever bucket the CSV came from. */
  lemma DestinationIgnoresSourceBucket(bucket1: string, bucket2: string, key: string, world: Outcomes)
    ensures Convert(bucket1, key, world).response == Convert(bucket2, key, world).response
    ensures |Convert(bucket1, key, world).calls| == |Convert(bucket2, key, world).calls|
    ensures |Convert(bucket1, key, world).calls| == 2 ==>
      Convert(bucket1, key, world).calls[1] == Convert(bucket2, key, world).calls[1]
  {
  }
}
