# puc_app: the CSV upload endpoint and the batch pipeline, in Dafny

The application has two halves that share one S3 bucket.

- **Upload endpoint** (`IaC/puc_app/app.py`, `upload_csv` on `POST /upload`):
  - Refuses a request that has no `file` part, or whose file has an empty name, with status 400.
  - Otherwise stores the file under `uploads/<secure_filename(name)>` and answers with a confirmation page.
- **Batch pipeline** (`IaC/puc_app/flow.py`): the `__main__` block
  - lists the keys under `uploads/` and keeps those that end in `.csv` (`listar_arquivos_csv`);
  - reads each CSV file and takes its base name (`extrair_csv`);
  - rewrites the `valor` column as Brazilian currency text (`transformar`). For example, 1234.5 becomes `R$ 1.234,50`;
  - writes the table to `processed/<base name>` (`carregar`);
  - stops at the first exception.

The model is functional:

- The bucket is a map from key to bytes.
- The store calls a run makes are a log of `Get`/`Put` operations, folded over the map. Each write replaces the previous body.
- Amounts are integer cents.
- A table is a list of column names plus rows that map columns to cells.
- Reading and writing CSV bytes is a `Codec` parameter.
- `secure_filename` is a function parameter with no stated properties.

Modules:

- `Results`: `Option` and `Result`.
- `Strings`: prefix/suffix tests, `replace` of one character, and Python's `split` and `join`.
- `Storage`: the store, the operation log, and last-write-wins.
- `Keys`: the `.csv` filter, the base name, and the output key.
- `Decimal`: decimal digits, and grouping them in threes.
- `Currency`: the `{:,.2f}` rendering, the separator swap, the `R$ ` text, and a parser that reads it back.
- `Frames`: tables and `transformar`.
- `Pipeline`: the per-file steps and the driver loop.
- `Upload`: `upload_csv`.
- `Examples`: worked amounts.

## Model

| member | source | states |
|---|---|---|
| Keys.CsvKeys | IaC/puc_app/flow.py:16-20 | every key returned ends in `.csv`; a key is returned exactly when it is listed and ends in `.csv`; the result is no longer than the listing |
| Keys.CsvKeysConcat | IaC/puc_app/flow.py:17-20 | the filter of two listings one after the other is the filter of the first followed by the filter of the second, so the listing order is kept |
| Keys.CsvKeysCount | IaC/puc_app/flow.py:17-20 | a `.csv` key occurs in the result as often as in the listing; any other key never occurs |
| Keys.CsvKeysEmpty | IaC/puc_app/flow.py:17-23 | the result is empty exactly when no listed key ends in `.csv` (the "no CSV file" case) |
| Keys.CsvKeysAllCsv | IaC/puc_app/flow.py:17-20 | a listing made only of `.csv` keys comes back unchanged |
| Keys.ListCsvFiles | IaC/puc_app/flow.py:16-24 | the loop over `response.get("Contents", [])` returns exactly the filtered listing; no `Contents` entry gives `[]` |
| Strings.Split | IaC/puc_app/flow.py:33 | Python's `split` on one separator: there is always at least one piece, and no piece contains the separator |
| Strings.JoinSplit | IaC/puc_app/flow.py:33 | `split` loses nothing: joining the pieces with the separator gives the key back |
| Strings.SplitJoin | IaC/puc_app/flow.py:33 | splitting a join of separator-free pieces gives the pieces back |
| Keys.Basename | IaC/puc_app/flow.py:33 | `split("/")[-1]` contains no `/`; it is a suffix of the key, preceded in the key by a `/` unless it is the whole key; a key without `/` is returned whole |
| Keys.BasenameAfterLastSlash | IaC/puc_app/flow.py:33 | the file name is exactly the text after the key's last `/` |
| Keys.OutputKey | IaC/puc_app/flow.py:50 | the output key starts with `processed/` and the rest of it is the file name |
| Keys.OutputKeyCollision | IaC/puc_app/flow.py:50 | two input keys go to the same output key if and only if their file names are equal |
| Keys.NestedKeysCollide | IaC/puc_app/flow.py:33 | `uploads/<folder>/<name>` and `uploads/<name>` go to the same output key |
| Strings.ReplaceChar | IaC/puc_app/flow.py:39 | one `replace` of a single character: the length is kept, each occurrence of the old character becomes the new one, and every other character is unchanged |
| Decimal.GroupLength | IaC/puc_app/flow.py:39 | the `,` option of the format puts one separator before every full group of three digits after the leading group, so a non-empty digit string of length n gets (n - 1) / 3 separators |
| Decimal.Digits | IaC/puc_app/flow.py:39 | the decimal digits of a whole number: at least one digit and no leading zero |
| Decimal.ValueDigits | IaC/puc_app/flow.py:39 | the digits denote the number they were made from |
| Decimal.TwoDigits | IaC/puc_app/flow.py:39 | the two decimal places: two digits that denote the number of cents |
| Decimal.GroupRoundTrip | IaC/puc_app/flow.py:39 | grouping digits in threes gives a well-formed grouping (a first group of 1 to 3 digits, then groups of 3) with the same digits |
| Decimal.UngroupRoundTrip | IaC/puc_app/flow.py:39 | every well-formed grouping is the grouping of its own digits |
| Decimal.GroupedOnly | IaC/puc_app/flow.py:39 | a grouped number holds only digits and its separator |
| Currency.Decimals | IaC/puc_app/flow.py:39 | the decimal part of the rendering is exactly two digits |
| Currency.Render | IaC/puc_app/flow.py:39 | `f"{x:,.2f}"` of the amount: it starts with `-` exactly when the amount is negative; after the sign comes a comma-grouped integer part whose digits denote the whole units, then a `.`, then two digits that denote the remaining cents |
| Currency.SwapSeparators | IaC/puc_app/flow.py:39 | the three `replace` calls keep the length; each `,` becomes `.`, each `.` becomes `,`, each `X` becomes `.`, and every other character is unchanged |
| Currency.SwapInvolution | IaC/puc_app/flow.py:39 | the swap undoes itself exactly on strings without `X` |
| Currency.SwapConcat | IaC/puc_app/flow.py:39 | the swap works character by character, so it distributes over concatenation |
| Currency.SwapPlain | IaC/puc_app/flow.py:39 | text without `,`, `.` or `X` is left unchanged |
| Currency.SwapGroup | IaC/puc_app/flow.py:39 | swapping a comma-grouped integer part gives the same digits grouped by dots |
| Currency.SwapRender | IaC/puc_app/flow.py:39 | swapping `"R$ " + f"{x:,.2f}"` gives the Brazilian text: `R$ `, the sign, dot-grouped units, a comma, two decimals |
| Currency.FormatValor | IaC/puc_app/flow.py:39 | the `valor` lambda produces the Brazilian-locale currency text of the amount |
| Currency.WholePartGrouped | IaC/puc_app/flow.py:39 | the integer part of the text is grouped by dots and holds the digits of the whole units |
| Currency.ParseText | IaC/puc_app/flow.py:39 | the parser reads currency text built from a sign, grouped digits and two decimals back to the amount they denote |
| Currency.FormatValorRoundTrip | IaC/puc_app/flow.py:39 | parsing the formatted text gives back the amount, so no amount is lost |
| Currency.FormatValorInjective | IaC/puc_app/flow.py:39 | two amounts are formatted alike if and only if they are equal |
| Currency.FormatValorShape | IaC/puc_app/flow.py:39 | the text starts with `R$ `, ends with a comma and two digits, and has no other comma |
| Examples.ThousandsExample | IaC/puc_app/flow.py:39 | 123450 cents is formatted as `R$ 1.234,50` |
| Examples.ZeroExample | IaC/puc_app/flow.py:39 | 0 cents is formatted as `R$ 0,00` |
| Examples.MillionExample | IaC/puc_app/flow.py:39 | 100000000 cents is formatted as `R$ 1.000.000,00` |
| Examples.SmallExample | IaC/puc_app/flow.py:39 | 9990 cents is formatted as `R$ 99,90` (one group, no dot) |
| Examples.NegativeExample | IaC/puc_app/flow.py:39 | -123450 cents is formatted as `R$ -1.234,50`, with the sign after `R$ ` |
| Frames.FormatRow | IaC/puc_app/flow.py:39 | one row after the `apply`: the `valor` cell holds the formatted amount and every other cell is as it was |
| Frames.FormatRows | IaC/puc_app/flow.py:39 | the `apply` succeeds exactly when every `valor` cell is a number; on success there is one output row per input row, each transformed as above |
| Frames.Transform | IaC/puc_app/flow.py:37-41 | `transformar` fails exactly when `valor` is missing (`MissingColumn`) or some `valor` cell is not a number; otherwise the columns and the row count are kept, only `valor` changes, and it becomes the formatted amount |
| Frames.RestoreFormatRows | IaC/puc_app/flow.py:39 | reading every formatted `valor` back gives the original rows |
| Frames.RestoreTransform | IaC/puc_app/flow.py:37-41 | the transformed frame can be read back into the original frame |
| Frames.TransformTwice | IaC/puc_app/flow.py:37-41 | `transformar` is not idempotent: a second pass succeeds if and only if there are no rows, and otherwise fails with `NotNumeric` |
| Pipeline.Fetch | IaC/puc_app/flow.py:29-30 | `get_object` returns a body exactly when the key is present, and the body is the stored one |
| Pipeline.Extract | IaC/puc_app/flow.py:26-35 | `extrair_csv` succeeds exactly when the object exists and parses; on success it returns the parsed frame and the key's base name; a missing object is reported as `NoSuchKey` for that key |
| Pipeline.Prepare | IaC/puc_app/flow.py:57-58 | reading and transforming one file succeeds exactly when it exists, parses and transforms; the frame produced is `transformar`'s output on the parsed frame, and it reads back to the parsed frame; an error names the file's key, and it is `NoSuchKey` exactly when the object is missing |
| Pipeline.Load | IaC/puc_app/flow.py:43-52 | `carregar` makes one upload, under `processed/` followed by the file name, of the encoded frame |
| Pipeline.Loop | IaC/puc_app/flow.py:56-59 | the store after the loop is the start store with the loop's calls applied; a run has no error exactly when it makes two calls per key; a failed run ends with a read of the failing key, on which the stage fails against the final store |
| Pipeline.LoopOps | IaC/puc_app/flow.py:56-59 | the loop reads only the listed keys and writes only under `processed/` |
| Pipeline.LoopReadsAll | IaC/puc_app/flow.py:56-57 | a run without error reads every key of the list |
| Pipeline.LoopAppend | IaC/puc_app/flow.py:56-59 | looping over two lists in turn is looping over the first one and then, unless it failed, over the second one from where the first left off |
| Pipeline.LoopFailure | IaC/puc_app/flow.py:56-59 | a failed run stops at its first failing file: it is the successful run over the files before it plus one read, so the earlier outputs stay written |
| Pipeline.ProcessAll | IaC/puc_app/flow.py:56-59 | the loop with `extrair_csv` and `transformar` as its stage: the final store is the calls applied in order; it has no error exactly when it makes two calls per key, and then every key was read; an error names the last key read, and it is the error `extrair_csv` or `transformar` raises on that key against the final store |
| Pipeline.Driver | IaC/puc_app/flow.py:54-59 | the final store is the calls applied in order; the run has no error exactly when it makes two calls per listed `.csv` key, and then every listed `.csv` key was read; a failed run ends with a read of the key its error names, and its error is the one `extrair_csv` or `transformar` raises on that key; with no `.csv` key listed there are no reads, no writes and no error; every read is of a listed `.csv` key; every write is under `processed/` |
| Pipeline.DriverLastWins | IaC/puc_app/flow.py:54-59 | when every listed key lies under `uploads/`, a `__main__` run without error leaves in `processed/<name>` the output of the last listed `.csv` file with base name `name`, and that is the last write to that key |
| Pipeline.LoopKeepsOtherKeys | IaC/puc_app/flow.py:56-59 | any key outside `processed/`, including the uploaded files, holds the same object after the loop as before |
| Pipeline.KeepsOtherKeys | IaC/puc_app/flow.py:54-59 | the same property for the `__main__` loop: the input files are neither changed nor removed |
| Pipeline.LastOutput | IaC/puc_app/flow.py:56-59 | a reference definition of the last output per file name: it exists only if some listed key has that base name |
| Pipeline.LastWinsStep | IaC/puc_app/flow.py:56-59 | adding one file to a successful run changes the last write to `processed/<name>` exactly when that file's base name is `name` |
| Pipeline.LoopLastWins | IaC/puc_app/flow.py:56-59 | in a run without error, the last write to `processed/<name>` is the output of the last listed file with that base name |
| Pipeline.ProcessAllLastWins | IaC/puc_app/flow.py:54-59 | after a `__main__` run without error, `processed/<name>` holds the output of the last listed file with that base name; files with the same name in different folders overwrite one another |
| Storage.ApplyFrame | IaC/puc_app/flow.py:51 | after a log of calls, the store holds exactly the keys it held plus the keys some call writes; a key no call writes keeps its body |
| Storage.LastPut | IaC/puc_app/flow.py:51 | a key has a last write in a log exactly when some call in the log writes it |
| Storage.ApplyAppend | IaC/puc_app/flow.py:56-59 | running two logs in turn is running their concatenation |
| Storage.ApplyLastWins | IaC/puc_app/flow.py:51 | an upload replaces the stored object: after a log, a key holds its last written body; a key that was never written keeps its old object, or stays absent |
| Storage.ApplyReadsOnly | IaC/puc_app/flow.py:29-30 | reads do not change the store |
| Storage.LastPutAppend | IaC/puc_app/flow.py:51 | the last write to a key in two logs run in turn is the one in the second log, if it has one, and otherwise the one in the first |
| Storage.ApplyUntouched | IaC/puc_app/flow.py:51 | a key no call writes keeps what it held |
| Upload.Confirmation | IaC/puc_app/app.py:28 | the success page is the fixed opening, then the sanitised name, then the fixed closing |
| Upload.UploadKey | IaC/puc_app/app.py:26 | the upload key starts with `uploads/` and the rest of it is the sanitised name |
| Upload.UploadCsv | IaC/puc_app/app.py:14-28 | status 400 if and only if there is no `file` part or the raw name is empty, and 200 otherwise; with no part the body is "Nenhum arquivo enviado" (this check comes first); with an empty name it is "Nome de arquivo vazio"; a 400 writes nothing; a 200 writes the stream exactly once, to `uploads/` plus the sanitised name, and confirms with that name |
| Upload.UploadWritesOnce | IaC/puc_app/app.py:15-26 | exactly one write if and only if the request is accepted; no write if and only if it is refused |
| Upload.UploadEffect | IaC/puc_app/app.py:25-26 | a refused request leaves the bucket unchanged; an accepted one puts the stream at its key and overwrites any earlier upload of the same sanitised name |
| Upload.UploadKeyBasename | IaC/puc_app/app.py:22-26 | for a sanitised name without `/`, the pipeline's base name of the upload key is that name |
| Upload.UploadKeyIsCsv | IaC/puc_app/app.py:26 | the pipeline picks up an upload if and only if its sanitised name ends in `.csv` |
| Upload.EmptySanitisedName | IaC/puc_app/app.py:18-26 | the empty check applies to the raw name only: a name that sanitises to `""` is still accepted, it is stored at the key `uploads/` itself, and the pipeline's `.csv` filter skips it |

## Left out

- boto3 (`list_objects_v2`, `get_object`, `upload_fileobj`) is network I/O.
  - The bucket is a map from key to bytes, and the calls are a log of reads and writes.
  - The bucket name is not modelled.
  - Keys.ListCsvFiles: takes the listing as an input, in the order S3 returns it. It does not model the prefix filter of `list_objects_v2` or its limit of 1000 keys per response (there is no pagination in the source).
- Storage errors other than a missing key are not modelled. Examples are access denied and network failure.
  - On the pipeline side, the only ones modelled are a missing key (`NoSuchKey`) and bytes that do not parse (`Unreadable`).
  - Upload.UploadCsv: assumes the upload succeeds. `upload_csv` has no exception handler, so a failing upload would become Flask's default 500 response.
- pandas `read_csv` / `to_csv` are a foreign CSV library. They are the `decode` and `encode` functions of a `Codec` parameter, and the byte-level CSV format is not modelled.
  - A column of `NaN`s or mixed types is not modelled. A `valor` cell is either an amount or text.
- Currency.FormatValor: takes the amount in integer cents. Binary floating-point rounding of `{:,.2f}`, and the rendering of `nan`/`inf`, are not modelled. So a float such as 0.125, whose rounding to two places depends on its binary value, has no counterpart.
- Currency.FormatValor: agrees with Python for an integer amount of at most 2^53 in absolute value, and for a float with at most two decimals and magnitude below 2^43, other than `-0.0`. Three cases outside these bounds are not modelled:
  - the `f` format converts a larger `int64` to a float first, so 9007199254740993 renders as `R$ 9.007.199.254.740.992,00`;
  - the float `-0.0` renders as `R$ -0,00`, which no amount in cents produces;
  - a large float is stored as a nearby binary value, so 140737488355328.1 renders with `,09`.
- werkzeug's `secure_filename` is outside this repository. It is a function parameter of Upload.UploadCsv with no properties assumed. Upload.UploadKeyBasename assumes the sanitised name has no `/`, which werkzeug promises but the model cannot check.
- Flask is not modelled: routing, `home()` / `render_template`, and the multipart parsing. The request's file parts are a map from form field to (file name, bytes).
- The Prefect `@task` decoration and every `print` (the "no CSV file" message among them) are not modelled. They do not affect the data.
