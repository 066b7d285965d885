/** The rows of the press-release spreadsheet and the merge save_data does
    (scraper.py:257-267, 284): old rows and new rows are concatenated and,
    for each id, only the last row is kept. */
module Records {
  import opened Text

  /** One release: the columns 번호, 제목, 등록일, 부서, 상세URL, 본문,
      핵심요약, 첨부파일목록 and 첨부파일경로. */
  datatype Record = Record(id: string, title: string, date: string, dept: string, url: string,
                           content: string, summary: string, attachments: string, paths: string)

  /** The ids of the rows. */
  function IdSet(rs: seq<Record>): set<string> {
    set r | r in rs :: r.id
  }

  /** drop_duplicates(subset=['번호'], keep='last'): a row stays when no
      later row has its id; the rows that stay keep their order. */
  function KeepLast(rs: seq<Record>): seq<Record>
    decreases |rs|
  {
    if rs == [] then []
    else if rs[0].id in IdSet(rs[1..]) then KeepLast(rs[1..])
    else [rs[0]] + KeepLast(rs[1..])
  }

  /** The rows whose id is not in ids, in order. */
  function Without(rs: seq<Record>, ids: set<string>): seq<Record>
    decreases |rs|
  {
    if rs == [] then []
    else if rs[0].id in ids then Without(rs[1..], ids)
    else [rs[0]] + Without(rs[1..], ids)
  }

  /** The file contents after merging a batch into what the file held
      (None: there was no file). */
  function Merge(store: Option<seq<Record>>, batch: seq<Record>): seq<Record> {
    match store
    case None => batch
    case Some(stored) => KeepLast(stored + batch)
  }

  /** Row r is the last row of rs with r's id. */
  predicate LastOfId(rs: seq<Record>, r: Record) {
    exists i :: 0 <= i < |rs| && rs[i] == r && forall j :: i < j < |rs| ==> rs[j].id != r.id
  }

  /** No two rows share an id. */
  predicate UniqueIds(rs: seq<Record>) {
    forall i, j :: 0 <= i < j < |rs| ==> rs[i].id != rs[j].id
  }

  lemma IdSetAppend(a: seq<Record>, b: seq<Record>)
    ensures IdSet(a + b) == IdSet(a) + IdSet(b)
  {
    forall x | x in IdSet(a + b) ensures x in IdSet(a) + IdSet(b) {
      var r :| r in a + b && r.id == x;
    }
    forall x | x in IdSet(a) + IdSet(b) ensures x in IdSet(a + b) {
      if x in IdSet(a) {
        var r :| r in a && r.id == x;
        assert r in a + b;
      } else {
        var r :| r in b && r.id == x;
        assert r in a + b;
      }
    }
  }

  /** The ids of c past a are those of b past a and of c past b, for a
      prefix a of a prefix b of c. */
  lemma IdSetSplit(a: seq<Record>, b: seq<Record>, c: seq<Record>)
    requires a <= b <= c
    ensures IdSet(c[|a|..]) == IdSet(b[|a|..]) + IdSet(c[|b|..])
  {
    assert c[|a|..] == b[|a|..] + c[|b|..];
    IdSetAppend(b[|a|..], c[|b|..]);
  }

  lemma IdSetCons(r: Record, rs: seq<Record>)
    ensures IdSet([r] + rs) == {r.id} + IdSet(rs)
  {
    IdSetAppend([r], rs);
    assert IdSet([r]) == {r.id};
  }

  /** KeepLast keeps every id. */
  lemma {:induction false} KeepLastIds(rs: seq<Record>)
    ensures IdSet(KeepLast(rs)) == IdSet(rs)
    decreases |rs|
  {
    if rs != [] {
      var tail := rs[1..];
      KeepLastIds(tail);
      assert rs == [rs[0]] + tail;
      IdSetCons(rs[0], tail);
      if rs[0].id !in IdSet(tail) {
        IdSetCons(rs[0], KeepLast(tail));
      }
    }
  }

  /** KeepLast keeps no id twice. */
  lemma {:induction false} KeepLastUnique(rs: seq<Record>)
    ensures UniqueIds(KeepLast(rs))
    decreases |rs|
  {
    if rs != [] {
      var tail := rs[1..];
      KeepLastUnique(tail);
      if rs[0].id !in IdSet(tail) {
        KeepLastIds(tail);
        var k := KeepLast(rs);
        assert k == [rs[0]] + KeepLast(tail);
        forall i, j | 0 <= i < j < |k| ensures k[i].id != k[j].id {
          assert k[j] == KeepLast(tail)[j - 1];
          if i == 0 {
            assert k[j].id in IdSet(KeepLast(tail));
          } else {
            assert k[i] == KeepLast(tail)[i - 1];
          }
        }
      }
    }
  }

  /** Each row KeepLast keeps is the last row of its id. */
  lemma {:induction false} KeepLastLast(rs: seq<Record>)
    ensures forall r :: r in KeepLast(rs) ==> LastOfId(rs, r)
    decreases |rs|
  {
    if rs != [] {
      var tail := rs[1..];
      KeepLastLast(tail);
      forall r | r in KeepLast(tail) ensures LastOfId(rs, r) {
        var i :| 0 <= i < |tail| && tail[i] == r && forall j :: i < j < |tail| ==> tail[j].id != r.id;
        assert rs[i + 1] == r;
        assert forall j :: i + 1 < j < |rs| ==> rs[j] == tail[j - 1];
      }
      if rs[0].id !in IdSet(tail) {
        assert LastOfId(rs, rs[0]) by {
          forall j | 0 < j < |rs| ensures rs[j].id != rs[0].id {
            assert rs[j] in tail;
          }
        }
      }
    }
  }

  /** KeepLast drops a front row whose id comes again later. */
  lemma KeepLastConsDrop(r: Record, rs: seq<Record>)
    requires r.id in IdSet(rs)
    ensures KeepLast([r] + rs) == KeepLast(rs)
  {
    assert ([r] + rs)[1..] == rs;
  }

  /** KeepLast keeps a front row whose id does not come again. */
  lemma KeepLastConsKeep(r: Record, rs: seq<Record>)
    requires r.id !in IdSet(rs)
    ensures KeepLast([r] + rs) == [r] + KeepLast(rs)
  {
    assert ([r] + rs)[1..] == rs;
  }

  /** Without drops a front row whose id is excluded. */
  lemma WithoutConsDrop(r: Record, rs: seq<Record>, ids: set<string>)
    requires r.id in ids
    ensures Without([r] + rs, ids) == Without(rs, ids)
  {
    assert ([r] + rs)[1..] == rs;
  }

  /** Without keeps a front row whose id is not excluded. */
  lemma WithoutConsKeep(r: Record, rs: seq<Record>, ids: set<string>)
    requires r.id !in ids
    ensures Without([r] + rs, ids) == [r] + Without(rs, ids)
  {
    assert ([r] + rs)[1..] == rs;
  }

  /** Keeping the last rows of a + b is keeping the last rows of a whose
      ids b does not mention, followed by the last rows of b. */
  lemma {:induction false} KeepLastAppend(a: seq<Record>, b: seq<Record>)
    ensures KeepLast(a + b) == Without(KeepLast(a), IdSet(b)) + KeepLast(b)
    decreases |a|
  {
    if a == [] {
      assert a + b == b;
    } else {
      var r, tail := a[0], a[1..];
      KeepLastAppend(tail, b);
      SplitFront(a, b);
      IdSetAppend(tail, b);
      if r.id in IdSet(tail) {
        StepDrop(r, tail, b);
      } else if r.id in IdSet(b) {
        StepShadowed(r, tail, b);
      } else {
        StepKeep(r, tail, b);
      }
    }
  }

  /** The front row's id comes again in the tail. */
  lemma StepDrop(r: Record, tail: seq<Record>, b: seq<Record>)
    requires KeepLast(tail + b) == Without(KeepLast(tail), IdSet(b)) + KeepLast(b)
    requires r.id in IdSet(tail) && IdSet(tail + b) == IdSet(tail) + IdSet(b)
    ensures KeepLast([r] + (tail + b)) == Without(KeepLast([r] + tail), IdSet(b)) + KeepLast(b)
  {
    KeepLastConsDrop(r, tail + b);
    KeepLastConsDrop(r, tail);
  }

  /** The front row's id comes again only in b. */
  lemma StepShadowed(r: Record, tail: seq<Record>, b: seq<Record>)
    requires KeepLast(tail + b) == Without(KeepLast(tail), IdSet(b)) + KeepLast(b)
    requires r.id !in IdSet(tail) && r.id in IdSet(b) && IdSet(tail + b) == IdSet(tail) + IdSet(b)
    ensures KeepLast([r] + (tail + b)) == Without(KeepLast([r] + tail), IdSet(b)) + KeepLast(b)
  {
    KeepLastConsDrop(r, tail + b);
    KeepLastConsKeep(r, tail);
    WithoutConsDrop(r, KeepLast(tail), IdSet(b));
  }

  /** The front row's id does not come again. */
  lemma StepKeep(r: Record, tail: seq<Record>, b: seq<Record>)
    requires KeepLast(tail + b) == Without(KeepLast(tail), IdSet(b)) + KeepLast(b)
    requires r.id !in IdSet(tail) && r.id !in IdSet(b) && IdSet(tail + b) == IdSet(tail) + IdSet(b)
    ensures KeepLast([r] + (tail + b)) == Without(KeepLast([r] + tail), IdSet(b)) + KeepLast(b)
  {
    KeepLastConsKeep(r, tail + b);
    KeepLastConsKeep(r, tail);
    WithoutConsKeep(r, KeepLast(tail), IdSet(b));
    ConsAssoc(r, Without(KeepLast(tail), IdSet(b)), KeepLast(b));
  }

  /** Without keeps exactly the rows whose id is not excluded. */
  lemma {:induction false} WithoutSpec(rs: seq<Record>, ids: set<string>)
    ensures forall r :: r in Without(rs, ids) <==> r in rs && r.id !in ids
    decreases |rs|
  {
    if rs != [] {
      WithoutSpec(rs[1..], ids);
      assert rs == [rs[0]] + rs[1..];
    }
  }

  /** The merge save_data performs: in the result no id occurs twice; a
      row whose id the batch mentions is the batch's last row for that
      id; every other row is the last old row for its id; and every id of
      the old rows and of the batch is present. */
  lemma MergeSpec(stored: seq<Record>, batch: seq<Record>)
    ensures UniqueIds(Merge(Some(stored), batch))
    ensures IdSet(Merge(Some(stored), batch)) == IdSet(stored) + IdSet(batch)
    ensures forall r :: r in Merge(Some(stored), batch) && r.id in IdSet(batch) ==> LastOfId(batch, r)
    ensures forall r :: r in Merge(Some(stored), batch) && r.id !in IdSet(batch) ==> LastOfId(stored, r)
  {
    KeepLastUnique(stored + batch);
    KeepLastIds(stored + batch);
    IdSetAppend(stored, batch);
    KeepLastAppend(stored, batch);
    KeepLastLast(stored);
    KeepLastLast(batch);
    KeepLastIds(batch);
    WithoutSpec(KeepLast(stored), IdSet(batch));
    var m := Merge(Some(stored), batch);
    forall r | r in m && r.id in IdSet(batch) ensures LastOfId(batch, r) {
      assert r !in Without(KeepLast(stored), IdSet(batch));
    }
    forall r | r in m && r.id !in IdSet(batch) ensures LastOfId(stored, r) {
      assert r.id !in IdSet(KeepLast(batch));
      assert r in Without(KeepLast(stored), IdSet(batch));
    }
  }
}
