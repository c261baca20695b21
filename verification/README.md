# CSV-to-Parquet Lambda handler, modelled in Dafny

The repository's one component is `lambda_handler`, an AWS Lambda function. S3
invokes it when an object is created. The handler reads the bucket name and
the object key from the first record of the event. It rejects keys that do not
end in `.csv` with status 400. Otherwise it downloads the object, decodes it
as UTF-8, parses it with pandas, converts it to a pyarrow table and serialises
it as Parquet. It then uploads the bytes to the fixed bucket
`pgi-parquet-output-bucket` under `converted/` plus the key with `.csv`
replaced by `.parquet`, and returns 200. Any exception in those steps is
caught and turned into a 500 whose body names the key and the exception text.

The model has three modules:

- `PyStr` (`py_str.dfy`) gives the two Python `str` operations the handler
  calls, with CPython's semantics. These are `endswith` (`EndsWith`) and
  `replace`, a left-to-right, non-overlapping, unanchored scan
  (`ReplaceAll`). It also defines `in`, `find`, `split` and `join`. The
  handler does not call these; they serve as specification helpers. Two
  independent definitions are proved equal to `ReplaceAll` on every input.
  One is CPython's find-and-copy loop (`ReplaceScan`). The other is
  `rep.join(s.split(pat))`, an identity that holds for every non-empty
  pattern.
- `ObjectKeys` (`object_keys.dfy`) holds the guard `IsCsvKey` (line 19) and
  the Parquet key `DestinationKey` (line 41). Its lemmas show exactly what the
  unanchored replace does to a key. The central fact is that `.csv` cannot
  overlap itself.
- `LambdaFunction` (`lambda_function.dfy`) models the handler as a pure
  function. Each external call (S3 read, UTF-8 decode, `read_csv`,
  `from_pandas`, `write_table`, S3 write) is given as an outcome: either it
  returns a value or it raises an exception with some text. The handler
  returns an `Invocation`. This is either a response together with the stages
  it ran and the S3 calls it issued, in order, or `Crashed`.

An event with no records, or whose first record lacks the bucket name or the
key, is not answered with a 500: the handler crashes. If
`event['Records'][0]...` raises on line 12 or 13, `object_key` is never
bound. The `except` block then raises UnboundLocalError while it formats the
500 body (line 56), and the exception escapes the handler. The model gives
`Crashed` exactly when the first record is missing or lacks the bucket name or
the key.

## Model

| member | source | states |
|---|---|---|
| PyStr.ReplaceAll | lambda-csv-to-parquet/package/lambda_function.py:41 | Definition of `s.replace(pat, rep)` for a non-empty pattern: scanning from the left, an occurrence of `pat` at the scan position becomes `rep` and the scan resumes after it. Otherwise one character is copied. |
| ObjectKeys.DestinationKey | lambda-csv-to-parquet/package/lambda_function.py:41 | Definition of the Parquet key: "converted/" followed by the object key with every ".csv" replaced by ".parquet". |
| PyStr.ReplaceScan | lambda-csv-to-parquet/package/lambda_function.py:41 | CPython's `replace` loop gives exactly the left-to-right, non-overlapping replace-all scan on every string. That loop copies the gap before each `find` hit, emits the replacement and resumes after the hit. |
| PyStr.ReplaceIsJoinOfSplit | lambda-csv-to-parquet/package/lambda_function.py:41 | `s.replace(pat, rep)` equals `rep.join(s.split(pat))` for every string and non-empty pattern. |
| PyStr.ReplaceBeforeFirst | lambda-csv-to-parquet/package/lambda_function.py:41 | Everything before the first occurrence is copied unchanged. That occurrence becomes the replacement, and replacing resumes right after it. |
| PyStr.ReplaceWithoutOccurrence | lambda-csv-to-parquet/package/lambda_function.py:41 | A string in which the pattern never occurs is left unchanged by `replace`. |
| PyStr.ReplaceAroundOccurrence | lambda-csv-to-parquet/package/lambda_function.py:41 | For a pattern that cannot overlap itself, `replace(a + pat + b)` is `replace(a) + rep + replace(b)`. No occurrence is lost to the scan of `a` running into it. |
| ObjectKeys.CsvSuffixSelfOverlapFree | lambda-csv-to-parquet/package/lambda_function.py:41 | No proper prefix of ".csv" is also a suffix of it, so two occurrences of ".csv" never overlap. |
| ObjectKeys.IsCsvKey | lambda-csv-to-parquet/package/lambda_function.py:19 | Definition of the guard: `object_key.endswith('.csv')`. |
| PyStr.EndsWith | lambda-csv-to-parquet/package/lambda_function.py:19 | Definition of `s.endswith(p)`: the last `len(p)` characters of `s` are exactly `p`, and a string shorter than `p` never ends with it. |
| ObjectKeys.GuardReadsLastFour | lambda-csv-to-parquet/package/lambda_function.py:19 | For every key, written as any stem followed by four characters, the guard passes if and only if those four characters are exactly ".csv", with the same case. Nothing before them matters. |
| ObjectKeys.GuardIsCaseSensitive | lambda-csv-to-parquet/package/lambda_function.py:19 | `endswith('.csv')` is exact. "data/sales.csv" passes it, while "data/sales.CSV", "data/sales.csv.gz" and "csv" do not. |
| ObjectKeys.CsvKeyGetsParquetSuffix | lambda-csv-to-parquet/package/lambda_function.py:41 | For every key that passes the guard, the Parquet key is "converted/" + replace(key without its last four characters) + ".parquet". So it starts with "converted/" and ends with ".parquet". |
| ObjectKeys.SoleCsvIsSwapped | lambda-csv-to-parquet/package/lambda_function.py:41 | If ".csv" occurs in the key only as its last four characters, the Parquet key is "converted/" + key[..len-4] + ".parquet". |
| ObjectKeys.EveryCsvIsRewritten | lambda-csv-to-parquet/package/lambda_function.py:41 | An earlier ".csv" is rewritten too: dir + ".csv" + name + ".csv" becomes "converted/" + dir + ".parquet" + name + ".parquet" (e.g. a.csv/b.csv becomes converted/a.parquet/b.parquet). |
| ObjectKeys.RewriteLeavesNoCsv | lambda-csv-to-parquet/package/lambda_function.py:41 | After `replace('.csv', '.parquet')` no ".csv" remains in any string. None survives, and none is formed across a replacement. |
| ObjectKeys.DestinationKeyHasNoCsv | lambda-csv-to-parquet/package/lambda_function.py:41 | The Parquet key never contains ".csv", whatever the object key. |
| LambdaFunction.LambdaHandler | lambda-csv-to-parquet/package/lambda_function.py:10-57 | Given that creating the S3 client on line 8 succeeds, the handler crashes exactly when there is no record or the first record lacks the bucket name or the key. Otherwise it behaves as the try block does on that bucket and key. |
| LambdaFunction.Convert | lambda-csv-to-parquet/package/lambda_function.py:14-57 | The status is always 200, 400 or 500. It is 400 exactly when the key fails the guard, and then the body is 'Uploaded file is not a CSV.' and nothing ran. S3 calls are a prefix of get_object(source bucket, key) followed by put_object('pgi-parquet-output-bucket', Parquet key). Stages run in pipeline order. On 200 every stage ran and the body names the key, the bucket and the Parquet key. On 500 the body is 'Error processing file {key}: {text}'. |
| LambdaFunction.SuccessBody | lambda-csv-to-parquet/package/lambda_function.py:49 | Definition of the 200 body: 'Successfully converted {key} to Parquet and uploaded to {bucket}/{parquet key}'. |
| LambdaFunction.ErrorBody | lambda-csv-to-parquet/package/lambda_function.py:56 | Definition of the 500 body: 'Error processing file {key}: {exception text}'. |
| LambdaFunction.ConvertStopsAtFirstFailure | lambda-csv-to-parquet/package/lambda_function.py:27-57 | For a key that passes the guard, the stages run up to and including the first that raises, and the 500 body carries that stage's exception text. put_object is issued, once, with the serialised bytes, exactly when every stage before the upload passed. The answer is 200 exactly when no stage raised. |
| LambdaFunction.OnlyFirstRecordCounts | lambda-csv-to-parquet/package/lambda_function.py:12-13 | Records after the first never change the outcome. |
| LambdaFunction.DestinationIgnoresSourceBucket | lambda-csv-to-parquet/package/lambda_function.py:14-50 | The response and the upload (bucket, key, bytes) are the same whichever bucket the CSV came from. |

## Left out

- The S3 network calls (lines 27 and 44) are not executed. Each call is recorded in the trace, and its result is an outcome given as input.
- LambdaFunction.LambdaHandler: creating the boto3 client (line 8) is assumed to succeed and is not recorded. It runs outside the `try`, so a failure there would make the handler crash on any event, not answer with a 500.
- UTF-8 decoding, `pandas.read_csv`, `pa.Table.from_pandas` and `pq.write_table` (lines 28-37) are library behaviour that the model cannot see. Each is an outcome that either returns an opaque value or raises with some text. CSV dialects, type inference and the Parquet encoding are not modelled.
- Outcomes are given up front, one per stage, rather than as functions of the data passed to each call. The values passed between stages are opaque, so the order of calls, the responses and the S3 call arguments are unaffected. The one exception is the serialised bytes, which flow into put_object and are tracked.
- The `print` diagnostics (lines 16, 20, 32, 38, 45, 53) are observational only.
- The `context` argument and the Lambda runtime (timeouts, retries, concurrent invocations) are not modelled. The handler does not use them.
- Event fields that are present but not strings are not modelled. One example is an integer key, which would make `endswith` raise AttributeError and give a 500. Present fields are strings in the model.
- PyStr.ReplaceAll: requires a non-empty pattern. Python's rule for an empty pattern (insert the replacement between all characters) is not modelled, because the handler only ever replaces ".csv".
