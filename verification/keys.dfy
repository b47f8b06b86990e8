/** Key handling of the batch pipeline (IaC/puc_app/flow.py): which listed keys
    are processed, the file name taken from a key, and the key the result is
    written to. */
module Keys {
  import opened Strings
  import opened Results

  /** Prefix the pipeline lists (`ORIGEM`). */
  const Origem: string := "uploads/"
  /** Prefix results are written under (`DESTINO`). */
  const Destino: string := "processed/"
  const CsvExtension: string := ".csv"

  predicate IsCsv(key: string) {
    EndsWith(key, CsvExtension)
  }

  /** The listed keys that end in `.csv`, in listing order. */
  function CsvKeys(keys: seq<string>): (r: seq<string>)
    ensures forall i :: 0 <= i < |r| ==> IsCsv(r[i])
    ensures forall k :: k in r <==> k in keys && IsCsv(k)
    ensures |r| <= |keys|
    decreases |keys|
  {
    if keys == [] then []
    else (if IsCsv(keys[0]) then [keys[0]] else []) + CsvKeys(keys[1..])
  }

  /** Filtering distributes over concatenation, so relative order is kept:
      whatever came first in the listing comes first in the result. */
  lemma {:induction false} CsvKeysConcat(a: seq<string>, b: seq<string>)
    ensures CsvKeys(a + b) == CsvKeys(a) + CsvKeys(b)
    decreases |a|
  {
    if a == [] {
      assert a + b == b;
    } else {
      assert (a + b)[0] == a[0];
      assert (a + b)[1..] == a[1..] + b;
      CsvKeysConcat(a[1..], b);
    }
  }

  /** Each `.csv` key occurs in the result exactly as often as in the listing,
      and no other key occurs at all. */
  lemma {:induction false} CsvKeysCount(keys: seq<string>, k: string)
    ensures multiset(CsvKeys(keys))[k] == if IsCsv(k) then multiset(keys)[k] else 0
    decreases |keys|
  {
    if keys != [] {
      CsvKeysCount(keys[1..], k);
      assert keys == [keys[0]] + keys[1..];
    }
  }

  /** The result is empty exactly when no listed key ends in `.csv`; a listing
      made only of `.csv` keys comes back whole. */
  lemma CsvKeysEmpty(keys: seq<string>)
    ensures CsvKeys(keys) == [] <==> forall i :: 0 <= i < |keys| ==> !IsCsv(keys[i])
  {
    if CsvKeys(keys) != [] {
      assert CsvKeys(keys)[0] in CsvKeys(keys);
    }
  }

  lemma {:induction false} CsvKeysAllCsv(keys: seq<string>)
    requires forall i :: 0 <= i < |keys| ==> IsCsv(keys[i])
    ensures CsvKeys(keys) == keys
    decreases |keys|
  {
    if keys != [] {
      CsvKeysAllCsv(keys[1..]);
    }
  }

  /** `listar_arquivos_csv`: walks `response.get("Contents", [])` and appends
      every key that ends in `.csv`.  `contents` is `None` when the listing
      response has no `Contents` entry (an empty prefix). */
  method ListCsvFiles(contents: Option<seq<string>>) returns (arquivos: seq<string>)
    ensures arquivos == CsvKeys(contents.GetOr([]))
    ensures contents.None? ==> arquivos == []
  {
    var keys := contents.GetOr([]);
    arquivos := [];
    var i := 0;
    while i < |keys|
      invariant 0 <= i <= |keys|
      invariant arquivos == CsvKeys(keys[..i])
    {
      var key := keys[i];
      CsvKeysConcat(keys[..i], [key]);
      assert keys[..i + 1] == keys[..i] + [key];
      if IsCsv(key) {
        arquivos := arquivos + [key];
      }
      i := i + 1;
    }
    assert keys[..i] == keys;
  }

  /** Properties of the last piece of a split, proved alongside the shape of the split. */
  lemma {:induction false} SplitLast(s: string, sep: char)
    ensures var parts := Split(s, sep); var n := parts[|parts| - 1];
      && EndsWith(s, n)
      && (|n| < |s| ==> s[|s| - |n| - 1] == sep)
      && (|parts| > 1 ==> |n| < |s|)
      && (|parts| == 1 ==> n == s)
    decreases |s|
  {
    if s != [] {
      var tail := Split(s[1..], sep);
      var nt := tail[|tail| - 1];
      SplitLast(s[1..], sep);
      var parts := Split(s, sep);
      if s[0] == sep || |tail| > 1 {
        assert parts[|parts| - 1] == nt;
        assert s[|s| - |nt|..] == s[1..][|s| - 1 - |nt|..];
        if |nt| < |s| - 1 {
          assert s[|s| - |nt| - 1] == s[1..][|s| - 1 - |nt| - 1];
        }
      } else {
        assert [s[0]] + s[1..] == s;
      }
    }
  }

  /** `s3_key.split("/")[-1]`: the file name is the part of the key after its
      last `/`, or the whole key when it has none. */
  function Basename(key: string): (name: string)
    ensures '/' !in name
    ensures EndsWith(key, name)
    ensures |name| < |key| ==> key[|key| - |name| - 1] == '/'
    ensures '/' !in key ==> name == key
  {
    var parts := Split(key, '/');
    SplitLast(key, '/');
    parts[|parts| - 1]
  }

  /** The key a processed file is written to (`f"{DESTINO}{nome_arquivo}"`). */
  function OutputKey(name: string): (key: string)
    ensures StartsWith(key, Destino)
    ensures key[|Destino|..] == name
  {
    Destino + name
  }

  /** Two input keys are written to the same output key exactly when their file
      names agree, whatever directories precede the names. */
  lemma OutputKeyCollision(k1: string, k2: string)
    ensures OutputKey(Basename(k1)) == OutputKey(Basename(k2)) <==> Basename(k1) == Basename(k2)
  {
    if OutputKey(Basename(k1)) == OutputKey(Basename(k2)) {
      assert Basename(k1) == OutputKey(Basename(k1))[|Destino|..];
    }
  }

  /** Given the position of the last `/` of a key, the file name is what follows it. */
  lemma BasenameAfterLastSlash(key: string, i: nat)
    requires i < |key| && key[i] == '/'
    requires '/' !in key[i + 1..]
    ensures Basename(key) == key[i + 1..]
  {
  }

  /** A key in a sub-folder of the input prefix collides on output with the
      key of the same name directly under the prefix. */
  lemma NestedKeysCollide(folder: string, name: string)
    requires '/' !in name
    ensures OutputKey(Basename(Origem + folder + "/" + name)) == OutputKey(Basename(Origem + name))
    ensures Basename(Origem + name) == name
  {
    var k1 := Origem + name;
    var k2 := Origem + folder + "/" + name;
    assert k1[|Origem|..] == name;
    assert k2[|Origem| + |folder| + 1..] == name;
    BasenameAfterLastSlash(k1, |Origem| - 1);
    BasenameAfterLastSlash(k2, |Origem| + |folder|);
  }
}
