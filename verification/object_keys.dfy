/**
 The two string decisions the handler makes about an S3 object key: the
 `.csv` suffix guard and the name of the Parquet object it writes.
 */
module ObjectKeys {
  import opened PyStr

  const CsvSuffix: string := ".csv"
  const ParquetSuffix: string := ".parquet"
  const ConvertedPrefix: string := "converted/"

  /** The guard: `object_key.endswith('.csv')`, case-sensitive. */
  predicate IsCsvKey(key: string) {
    EndsWith(key, CsvSuffix)
  }

  /** The Parquet key: `"converted/" + key.replace('.csv', '.parquet')`. */
  function DestinationKey(key: string): string {
    ConvertedPrefix + ReplaceAll(key, CsvSuffix, ParquetSuffix)
  }

  /** ".csv" cannot overlap itself: its only '.' is its first character. */
  lemma CsvSuffixSelfOverlapFree()
    ensures SelfOverlapFree(CsvSuffix)
  {
    forall k: nat | 0 < k < |CsvSuffix|
      ensures !IsBorder(CsvSuffix, k)
    {
      assert CsvSuffix[..k][0] == '.';
      assert CsvSuffix[|CsvSuffix| - k..][0] == CsvSuffix[4 - k];
    }
  }

  /** The guard is exact: only the four lower-case characters ".csv" at the
      very end pass it. */
  lemma GuardIsCaseSensitive()
    ensures IsCsvKey("data/sales.csv")
    ensures !IsCsvKey("data/sales.CSV")
    ensures !IsCsvKey("data/sales.csv.gz")
    ensures !IsCsvKey("csv")
  {
    assert "data/sales.csv"[10..] == ".csv";
    assert "data/sales.CSV"[10..] != ".csv" by {
      assert "data/sales.CSV"[10..][1] == 'C';
    }
    assert "data/sales.csv.gz"[13..] != ".csv" by {
      assert "data/sales.csv.gz"[13..][0] == 'v';
    }
  }

  /** The guard reads exactly the last four characters of the key: a key
      passes it if and only if those four are ".csv", character for
      character, whatever precedes them. */
  lemma GuardReadsLastFour(stem: string, tail: string)
    requires |tail| == |CsvSuffix|
    ensures IsCsvKey(stem + tail) <==> tail == CsvSuffix
  {
  }

  /** A key that passes the guard always loses its trailing ".csv": the
      Parquet key starts with "converted/" and ends with ".parquet", and the
      rest of the key is rewritten on its own. */
  lemma CsvKeyGetsParquetSuffix(key: string)
    requires IsCsvKey(key)
    ensures DestinationKey(key)
      == ConvertedPrefix + ReplaceAll(key[..|key| - |CsvSuffix|], CsvSuffix, ParquetSuffix) + ParquetSuffix
    ensures StartsWith(DestinationKey(key), ConvertedPrefix)
    ensures EndsWith(DestinationKey(key), ParquetSuffix)
  {
    var stem := key[..|key| - |CsvSuffix|];
    assert key == stem + CsvSuffix + "";
    CsvSuffixSelfOverlapFree();
    ReplaceAroundOccurrence(stem, CsvSuffix, "", ParquetSuffix);
    var dest := DestinationKey(key);
    assert dest == ConvertedPrefix + (ReplaceAll(stem, CsvSuffix, ParquetSuffix) + ParquetSuffix);
    assert dest[..|ConvertedPrefix|] == ConvertedPrefix;
    assert dest[|dest| - |ParquetSuffix|..] == ParquetSuffix;
  }

  /** When the trailing ".csv" is the key's only ".csv", the Parquet key is
      the key with that suffix swapped, under "converted/". */
  lemma SoleCsvIsSwapped(key: string)
    requires IsCsvKey(key)
    requires forall j: nat :: OccursAt(key, CsvSuffix, j) ==> j == |key| - |CsvSuffix|
    ensures DestinationKey(key) == ConvertedPrefix + key[..|key| - |CsvSuffix|] + ParquetSuffix
  {
    var stem := key[..|key| - |CsvSuffix|];
    CsvKeyGetsParquetSuffix(key);
    PrefixOccurrences(key, CsvSuffix, |stem|);
    assert !Contains(stem, CsvSuffix) by {
      forall j: nat ensures !OccursAt(stem, CsvSuffix, j) {
      }
    }
    ReplaceWithoutOccurrence(stem, CsvSuffix, ParquetSuffix);
  }

  /** The replacement is not anchored: a ".csv" in a directory name is
      rewritten as well as the suffix, so `a.csv/b.csv` becomes
      `converted/a.parquet/b.parquet`. */
  lemma EveryCsvIsRewritten(dir: string, name: string)
    requires !Contains(dir, CsvSuffix) && !Contains(name, CsvSuffix)
    ensures DestinationKey(dir + CsvSuffix + name + CsvSuffix)
      == ConvertedPrefix + dir + ParquetSuffix + name + ParquetSuffix
  {
    CsvSuffixSelfOverlapFree();
    var tail := name + CsvSuffix + "";
    var key := dir + CsvSuffix + name + CsvSuffix;
    assert key == dir + CsvSuffix + tail;
    ReplaceAroundOccurrence(name, CsvSuffix, "", ParquetSuffix);
    ReplaceWithoutOccurrence(name, CsvSuffix, ParquetSuffix);
    assert ReplaceAll(tail, CsvSuffix, ParquetSuffix) == name + ParquetSuffix + "";
    ReplaceAroundOccurrence(dir, CsvSuffix, tail, ParquetSuffix);
    ReplaceWithoutOccurrence(dir, CsvSuffix, ParquetSuffix);
    assert ReplaceAll(key, CsvSuffix, ParquetSuffix) == dir + ParquetSuffix + (name + ParquetSuffix + "");
    assert name + ParquetSuffix + "" == name + ParquetSuffix;
    Regroup(ConvertedPrefix, dir, ParquetSuffix, name + ParquetSuffix);
  }

  /** The scan copies every character it does not replace, so a prefix of
      the result free of '.' was already a prefix of the key: each
      replacement starts with '.'. */
  lemma {:induction false} DotFreePrefixIsKept(s: string, q: string)
    requires '.' !in q
    requires StartsWith(ReplaceAll(s, CsvSuffix, ParquetSuffix), q)
    ensures StartsWith(s, q)
    decreases |s|
  {
    var r := ReplaceAll(s, CsvSuffix, ParquetSuffix);
    if |s| > 0 && |q| > 0 && !OccursAt(s, CsvSuffix, 0) {
      var r' := ReplaceAll(s[1..], CsvSuffix, ParquetSuffix);
      assert r == [s[0]] + r';
      assert q[0] == s[0] by {
        assert q[0] == r[..|q|][0];
      }
      assert StartsWith(r', q[1..]) by {
        assert r'[..|q| - 1] == r[1..|q|] == r[..|q|][1..];
      }
      DotFreePrefixIsKept(s[1..], q[1..]);
      assert s[..|q|] == [s[0]] + s[1..][..|q| - 1];
      assert q == [q[0]] + q[1..];
    }
  }

  /** No ".csv" survives the rewrite, and none is created by it: ".parquet"
      holds a single '.', followed by 'p'. */
  lemma {:induction false} RewriteLeavesNoCsv(s: string)
    ensures !Contains(ReplaceAll(s, CsvSuffix, ParquetSuffix), CsvSuffix)
    decreases |s|
  {
    var r := ReplaceAll(s, CsvSuffix, ParquetSuffix);
    if |s| > 0 {
      if OccursAt(s, CsvSuffix, 0) {
        var r' := ReplaceAll(s[|CsvSuffix|..], CsvSuffix, ParquetSuffix);
        RewriteLeavesNoCsv(s[|CsvSuffix|..]);
        assert r == ParquetSuffix + r';
        assert r[|ParquetSuffix|..] == r';
        ShiftedOccurrences(r, CsvSuffix, |ParquetSuffix|);
        forall j: nat | j <= |r|
          ensures !OccursAt(r, CsvSuffix, j)
        {
          if j >= |ParquetSuffix| {
            assert !OccursAt(r', CsvSuffix, j - |ParquetSuffix|);
          } else if j + |CsvSuffix| <= |r| {
            assert r[j..j + |CsvSuffix|][0] == ParquetSuffix[j];
            assert r[j..j + |CsvSuffix|][1] == r[j + 1];
          }
        }
      } else {
        var r' := ReplaceAll(s[1..], CsvSuffix, ParquetSuffix);
        RewriteLeavesNoCsv(s[1..]);
        assert r == [s[0]] + r';
        assert r[1..] == r';
        ShiftedOccurrences(r, CsvSuffix, 1);
        forall j: nat | j <= |r|
          ensures !OccursAt(r, CsvSuffix, j)
        {
          if j >= 1 {
            assert !OccursAt(r', CsvSuffix, j - 1);
          } else if OccursAt(r, CsvSuffix, 0) {
            assert r'[..3] == r[1..4] == "csv";
            DotFreePrefixIsKept(s[1..], "csv");
          }
        }
      }
    }
  }

  /** The Parquet key never contains ".csv", whatever the object key. */
  lemma DestinationKeyHasNoCsv(key: string)
    ensures !Contains(DestinationKey(key), CsvSuffix)
  {
    var r := ReplaceAll(key, CsvSuffix, ParquetSuffix);
    var dest := DestinationKey(key);
    RewriteLeavesNoCsv(key);
    assert dest[|ConvertedPrefix|..] == r;
    ShiftedOccurrences(dest, CsvSuffix, |ConvertedPrefix|);
    forall j: nat | j <= |dest|
      ensures !OccursAt(dest, CsvSuffix, j)
    {
      if j >= |ConvertedPrefix| {
        assert !OccursAt(r, CsvSuffix, j - |ConvertedPrefix|);
      } else if j + |CsvSuffix| <= |dest| {
        assert dest[j..j + |CsvSuffix|][0] == ConvertedPrefix[j];
      }
    }
  }
}
