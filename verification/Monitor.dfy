/**
 The objects of `webui/chunks.py`: the lists (`SavedChunkDataList`), the cursor over them
 (`DataIter`) and the manager (`ChunkDataManager`), each proved against `History`.
 */
module Monitor {
  import opened History

  class SampleList {
    const timespan: real
    const maxLength: int
    const nextList: SampleList?
    var theList: seq<Sample>
    var firstTime: real
    var lastTime: real
    ghost const chain: seq<SampleList>

    constructor (timespan: real, maxLength: int, nextList: SampleList? := null)
      requires nextList != null ==> nextList.Linked()
      ensures Linked() && this.timespan == timespan && this.maxLength == maxLength && this.nextList == nextList
      ensures chain == [this] + if nextList == null then [] else nextList.chain
      ensures View() == Level([], 0.0, 0.0, maxLength, timespan)
    {
      this.timespan, this.maxLength, this.nextList := timespan, maxLength, nextList;
      theList, firstTime, lastTime := [], 0.0, 0.0;
      chain := [this] + if nextList == null then [] else nextList.chain;
    }

    /** `chain` is this list followed by everything below it. */
    ghost predicate Linked()
      decreases |chain|
    {
      && |chain| > 0 && chain[0] == this
      && (nextList == null ==> |chain| == 1)
      && (nextList != null ==> chain[1..] == nextList.chain && this !in nextList.chain && nextList.Linked())
    }

    ghost function View(): Level
      reads this
    {
      Level(theList, firstTime, lastTime, maxLength, timespan)
    }

    method JustAdd(data: Sample)
      modifies this
      ensures View() == History.JustAdd(old(View()), data)
    {
      if firstTime == 0.0 {
        firstTime := data.timestamp;
      }
      lastTime := data.timestamp;
      theList := [data] + theList;
    }

    /** Remove one entry; a negative index means the last. */
    method Extract(index: int) returns (r: Option<Sample>)
      modifies this
      ensures var was := old(View());
              var i := if index < 0 then |was.items| - 1 else index;
              if |was.items| == 0 || index >= |was.items| then r == None && View() == was
              else r == Some(was.items[i]) && View() == Without(was, i)
    {
      var theLen := |theList|;
      if theLen <= 0 || index >= theLen {
        return None;
      }
      var i := if index < 0 then theLen - 1 else index;
      r := Some(theList[i]);
      theList := theList[..i] + theList[i + 1..];
      if theLen > 1 {
        firstTime := theList[theLen - 2].timestamp;
      } else if theLen == 1 {
        lastTime, firstTime := 0.0, 0.0;
      }
    }

    method CanAddData(data: Sample) returns (ok: bool)
      ensures ok == CanAdd(View(), data)
    {
      if |theList| == 0 {
        return true;
      }
      var timediff := data.timestamp - theList[0].timestamp;
      return timediff >= timespan;
    }

    method FreeSpaceForNewData()
      requires Linked()
      modifies chain
      ensures old(|theList|) == 0 ==> View() == old(View()) && Levels(chain[1..]) == old(Levels(chain[1..]))
      ensures old(|theList|) > 0 ==>
                && View() == Without(old(View()), old(|theList|) - 1)
                && Levels(chain[1..]) == Offer(old(Levels(chain[1..])), old(theList[|theList| - 1]))
      decreases |chain|, 0
    {
      ghost var below := Levels(chain[1..]);
      label start:
      var oldData := Extract(-1);
      assert Levels(chain[1..]) == below by { LevelsFrame@start(chain[1..]); }
      if nextList != null && oldData != None {
        nextList.AddData(oldData.value, false);
      }
    }

    /** The sample cascades down the lists exactly as `Push` says. */
    method AddData(data: Sample, always: bool := true)
      requires Linked()
      modifies chain
      ensures Levels(chain) == if always then Push(old(Levels(chain)), data) else Offer(old(Levels(chain)), data)
      ensures always ==> exists j :: Cascade(old(Levels(chain)), data, Levels(chain), j)
      decreases |chain|, 2
    {
      hide Push, CanAdd, Cascade;
      ghost var j := PushExact(Levels(chain), data);
      if !always {
        var ok := CanAddData(data);
        if !ok {
          return;
        }
      }
      Insert(data);
    }

    method Insert(data: Sample)
      requires Linked()
      modifies chain
      ensures Levels(chain) == Push(old(Levels(chain)), data)
      decreases |chain|, 1
    {
      hide Push, Offer, Levels, History.JustAdd;
      ghost var l, rest := View(), Levels(chain[1..]);
      LevelsSplit(chain);
      PushJoin(l, rest, data);
      if |theList| >= maxLength {
        FreeSpaceForNewData();
      }
      assert View() == Emptied(l);
      label before:
      ghost var below := Levels(chain[1..]);
      assert below == if Full(l) then Offer(rest, Oldest(l)) else rest;
      JustAdd(data);
      LevelsFrame@before(chain[1..]);
      LevelsSplit(chain);
    }
  }

  lemma LevelsSplit(a: seq<SampleList>)
    requires |a| > 0
    ensures Levels(a) == [a[0].View()] + Levels(a[1..])
  {
  }

  ghost function Levels(a: seq<SampleList>): (r: seq<Level>)
    reads a
    ensures |r| == |a|
  {
    seq(|a|, i requires 0 <= i < |a| reads a => a[i].View())
  }

  twostate lemma LevelsFrame(a: seq<SampleList>)
    requires forall i :: 0 <= i < |a| ==> unchanged(a[i])
    ensures Levels(a) == old(Levels(a))
  {
  }

  class DataIter {
    const dataArray: seq<SampleList>
    var iArray: int
    var iElem: int

    ghost predicate Valid()
      reads this, dataArray
    {
      var ls := Levels(dataArray);
      && Packed(ls)
      && (if |Flat(ls)| == 0 then iArray == -1 && iElem == -1
          else 0 <= iArray < |ls| && 0 <= iElem < |ls[iArray].items|)
    }

    ghost function All(): seq<Sample>
      reads dataArray
    {
      Flat(Levels(dataArray))
    }

    /** The cursor's position in the whole history; -1 if that is empty. */
    ghost function Pos(): (r: int)
      requires Valid()
      reads this, dataArray
      ensures -1 <= r < |All()| && (r == -1 <==> |All()| == 0)
    {
      if iElem == -1 then -1
      else
        FlatAt(Levels(dataArray), iArray, iElem);
        Offset(Levels(dataArray), iArray) + iElem
    }

    constructor (dataArray: seq<SampleList>)
      requires Packed(Levels(dataArray))
      ensures this.dataArray == dataArray && Valid() && (|All()| > 0 ==> Pos() == 0)
    {
      this.dataArray := dataArray;
      if |dataArray| == 0 {
        iArray, iElem := -1, -1;
      } else if |dataArray[0].theList| == 0 {
        iArray, iElem := -1, -1;
      } else {
        iArray, iElem := 0, 0;
      }
      new;
      ghost var ls := Levels(dataArray);
      if |dataArray| == 0 || |dataArray[0].theList| == 0 {
        assert |dataArray| > 0 ==> ls[0] == dataArray[0].View();
        EmptyTail(ls, 0);
      } else {
        assert ls[0] == dataArray[0].View();
        FlatAt(ls, 0, 0);
      }
    }

    method GetCur() returns (r: Option<Sample>)
      requires Valid()
      ensures r == if Pos() == -1 then None else Some(All()[Pos()])
    {
      if iElem == -1 {
        return None;
      }
      FlatAt(Levels(dataArray), iArray, iElem);
      return Some(dataArray[iArray].theList[iElem]);
    }

    method GetNext() returns (r: Option<Sample>)
      requires Valid()
      modifies this
      ensures Valid()
      ensures if 0 <= old(Pos()) < |All()| - 1 then Pos() == old(Pos()) + 1 && r == Some(All()[Pos()])
              else Pos() == old(Pos()) && r == None
    {
      hide Flat, Offset;
      if iElem == -1 {
        return None;
      }
      ghost var ls := Levels(dataArray);
      FlatAt(ls, iArray, iElem);
      OffsetNext(ls, iArray);
      if iElem + 1 < |dataArray[iArray].theList| {
        FlatAt(ls, iArray, iElem + 1);
        iElem := iElem + 1;
        return Some(dataArray[iArray].theList[iElem]);
      } else if iArray + 1 < |dataArray| && |dataArray[iArray + 1].theList| > 0 {
        FlatAt(ls, iArray + 1, 0);
        iArray, iElem := iArray + 1, 0;
        return Some(dataArray[iArray].theList[iElem]);
      } else {
        EmptyTail(ls, iArray + 1);
        return None;
      }
    }

    method GetPrev() returns (r: Option<Sample>)
      requires Valid()
      modifies this
      ensures Valid()
      ensures if old(Pos()) > 0 then Pos() == old(Pos()) - 1 && r == Some(All()[Pos()])
              else Pos() == old(Pos()) && r == None
    {
      hide Flat, Offset;
      if iElem == -1 {
        return None;
      }
      ghost var ls := Levels(dataArray);
      if iElem > 0 {
        FlatAt(ls, iArray, iElem - 1);
        iElem := iElem - 1;
        return Some(dataArray[iArray].theList[iElem]);
      } else if iArray > 0 {
        assert |ls[iArray - 1].items| > 0;
        OffsetNext(ls, iArray - 1);
        FlatAt(ls, iArray - 1, |ls[iArray - 1].items| - 1);
        iArray := iArray - 1;
        iElem := |dataArray[iArray].theList| - 1;
        return Some(dataArray[iArray].theList[iElem]);
      } else {
        OffsetZero(ls);
        return None;
      }
    }

    method SetFirst() returns (ok: bool)
      requires Valid()
      modifies this
      ensures Valid() && ok == (|All()| > 0) && (ok ==> Pos() == 0)
    {
      if iElem == -1 {
        return false;
      }
      assert iArray > 0 ==> |Levels(dataArray)[0].items| > 0;
      FlatAt(Levels(dataArray), 0, 0);
      iArray, iElem := 0, 0;
      return true;
    }

    method SetLast() returns (ok: bool)
      requires Valid()
      modifies this
      ensures Valid() && ok == (|All()| > 0) && (ok ==> Pos() == |All()| - 1)
    {
      hide Flat, Offset;
      if iElem == -1 {
        return false;
      }
      ghost var ls := Levels(dataArray);
      assert iArray > 0 ==> |ls[0].items| > 0;
      var ind := 0;
      while ind < |dataArray|
        invariant 0 <= ind <= |dataArray| && Valid() && iElem != -1
        invariant ind == 0 ==> |ls[0].items| > 0
        invariant ind > 0 ==> iArray == ind - 1 && iElem == |ls[iArray].items| - 1
      {
        if |dataArray[ind].theList| == 0 {
          break;
        }
        FlatAt(ls, ind, 0);
        iArray := ind;
        iElem := |dataArray[iArray].theList| - 1;
        ind := ind + 1;
      }
      OffsetNext(ls, iArray);
      EmptyTail(ls, ind);
      return true;
    }

    /** Move to the head of the next list, if that holds anything. */
    method GetNextArray() returns (r: SampleList?)
      requires Valid()
      modifies this
      ensures Valid()
      ensures r == null ==> iArray == old(iArray) && iElem == old(iElem)
      ensures r == null && iElem != -1 ==> iArray + 1 == |dataArray| || |dataArray[iArray + 1].theList| == 0
      ensures r != null ==> old(iElem) != -1 && iArray == old(iArray) + 1 && iElem == 0 && r == dataArray[iArray]
    {
      if iElem == -1 {
        return null;
      }
      if iArray + 1 >= |dataArray| {
        return null;
      } else if |dataArray[iArray + 1].theList| > 0 {
        FlatAt(Levels(dataArray), iArray + 1, 0);
        iArray, iElem := iArray + 1, 0;
        return dataArray[iArray];
      } else {
        return null;
      }
    }
  }

  /** Find the first list, from the cursor's on, that reaches back to `theTime`. */
  method FindArrayIndexByTime(iter: DataIter, theTime: real) returns (found: bool)
    requires iter.Valid() && Good(Levels(iter.dataArray), false) && iter.iElem != -1
    modifies iter
    ensures iter.Valid() && iter.iElem != -1
    ensures found ==> iter.Pos() >= old(iter.Pos())
                      && Scan(iter.All(), old(iter.Pos()), theTime) == Scan(iter.All(), iter.Pos(), theTime) < |iter.All()|
    ensures !found ==> Scan(iter.All(), old(iter.Pos()), theTime) == |iter.All()|
  {
    hide Flat, Offset, Scan, Good, Packed;
    ghost var ls, start := Levels(iter.dataArray), iter.Pos();
    if theTime < 0.0 {
      StopNowhere(ls, start, theTime);
      return false;
    }
    var list: SampleList? := iter.dataArray[iter.iArray];
    while list != null
      invariant iter.Valid() && iter.iElem != -1 && iter.Pos() >= start
      invariant list != null ==> list == iter.dataArray[iter.iArray]
      invariant list != null ==> Scan(iter.All(), start, theTime) == Scan(iter.All(), iter.Pos(), theTime)
      invariant list == null ==> Scan(iter.All(), start, theTime) == |iter.All()|
      decreases list != null, |ls| - iter.iArray
    {
      assert list.View() == ls[iter.iArray];
      if theTime >= list.firstTime {
        StopList(ls, iter.iArray, iter.iElem, theTime);
        return true;
      }
      SkipList(ls, iter.iArray, iter.iElem, theTime);
      ghost var here := iter.iArray;
      OffsetNext(ls, here);
      list := iter.GetNextArray();
      if list == null {
        EmptyTail(ls, here + 1);
      }
    }
    return false;
  }

  /** Advance sample by sample to the first one not newer than `timestamp`. */
  method FindTimedData(iter: DataIter, timestamp: real) returns (found: bool)
    requires iter.Valid() && iter.iElem != -1
    modifies iter
    ensures iter.Valid() && iter.iElem != -1
    ensures found == (Scan(iter.All(), old(iter.Pos()), timestamp) < |iter.All()|)
    ensures found ==> iter.Pos() == Scan(iter.All(), old(iter.Pos()), timestamp)
  {
    hide Flat, Offset, Packed;
    ghost var start := iter.Pos();
    var elem := iter.GetCur();
    while elem != None
      invariant iter.Valid() && iter.iElem != -1 && iter.Pos() >= start
      invariant elem != None ==> elem == Some(iter.All()[iter.Pos()])
      invariant elem != None ==> Scan(iter.All(), start, timestamp) == Scan(iter.All(), iter.Pos(), timestamp)
      invariant elem == None ==> Scan(iter.All(), start, timestamp) == |iter.All()|
      decreases elem != None, |iter.All()| - iter.Pos()
    {
      if elem.value.timestamp - timestamp <= 0.0 {
        return true;
      }
      elem := iter.GetNext();
    }
    return false;
  }

  /** Both levels of the search, from the cursor on: one linear scan. */
  method Locate(iter: DataIter, t: real) returns (r: Option<Sample>)
    requires iter.Valid() && Good(Levels(iter.dataArray), false) && iter.iElem != -1
    modifies iter
    ensures iter.Valid() && iter.iElem != -1
    ensures var q := Scan(iter.All(), old(iter.Pos()), t);
            if q < |iter.All()| then r == Some(iter.All()[q]) && iter.Pos() == q else r == None
  {
    hide Flat, Offset, Scan, Good, Packed, Levels;
    var inArray := FindArrayIndexByTime(iter, t);
    if inArray {
      var found := FindTimedData(iter, t);
      if found {
        r := iter.GetCur();
        return;
      }
    }
    return None;
  }

  /** An empty list configured with a time span and a size. */
  function Empty(config: (real, int)): Level {
    Level([], 0.0, 0.0, config.1, config.0)
  }

  lemma FourGood(c: (real, int), h: (real, int), d: (real, int), m: (real, int))
    ensures Good([Empty(c), Empty(h), Empty(d), Empty(m)], false)
  {
    FreshGood([Empty(c), Empty(h), Empty(d), Empty(m)]);
  }

  class ChunkDataManager {
    const dataArray: seq<SampleList>
    var deltaInterval: real
    var minusLatestTime: real

    ghost predicate Valid()
      reads this, dataArray
    {
      Wired() && Good(Levels(dataArray), false)
    }

    /** The manager's lists are the chain that starts at the topmost one. */
    ghost predicate Wired() {
      |dataArray| == 4 && dataArray[0].Linked() && dataArray[0].chain == dataArray
    }

    ghost function All(): seq<Sample>
      reads dataArray
    {
      Flat(Levels(dataArray))
    }

    constructor (monthly: (real, int), dayly: (real, int), hourly: (real, int), current: (real, int))
      ensures Valid() && Levels(dataArray) == [Empty(current), Empty(hourly), Empty(dayly), Empty(monthly)]
      ensures deltaInterval == 600.0 && minusLatestTime == 0.0
    {
      hide Good;
      var m := new SampleList(monthly.0, monthly.1);
      var d := new SampleList(dayly.0, dayly.1, m);
      var h := new SampleList(hourly.0, hourly.1, d);
      var c := new SampleList(current.0, current.1, h);
      dataArray := [c, h, d, m];
      deltaInterval, minusLatestTime := 600.0, 0.0;
      new;
      assert c.chain == [c] + ([h] + ([d] + [m])) == dataArray;
      assert Levels(dataArray) == [c.View(), h.View(), d.View(), m.View()];
      FourGood(current, hourly, dayly, monthly);
    }

    /** Samples that come in time order keep the invariant. */
    method Add(data: Sample)
      requires Wired()
      modifies dataArray
      ensures Levels(dataArray) == Push(old(Levels(dataArray)), data)
      ensures exists j :: Cascade(old(Levels(dataArray)), data, Levels(dataArray), j)
      ensures |All()| > 0 && All()[0] == data
      ensures old(Valid()) && data.timestamp > 0.0 && (old(|All()| == 0) || data.timestamp >= old(All()[0].timestamp)) ==> Valid()
    {
      hide Good, Flat, Push, Cascade;
      ghost var was := Levels(dataArray);
      ghost var j := PushExact(was, data);
      ghost var k := PushFlat(was, data);
      if Good(was, false) && data.timestamp > 0.0 && (|Flat(was)| == 0 || data.timestamp >= Flat(was)[0].timestamp) {
        PushKeeps(was, data, false);
      }
      dataArray[0].AddData(data);
    }

    method GetLastTime() returns (t: real)
      requires Valid()
      ensures t == if |All()| == 0 then 0.0 else All()[0].timestamp
    {
      t := dataArray[0].lastTime;
      FirstIsNewest(Levels(dataArray));
      assert Levels(dataArray)[0] == dataArray[0].View();
    }

    method GetFirstTime() returns (r: Option<real>)
      requires Valid()
      ensures r == if |All()| == 0 then None else Some(All()[|All()| - 1].timestamp)
    {
      ghost var ls := Levels(dataArray);
      GoodPacked(ls);
      var i := |dataArray|;
      while i > 0
        invariant 0 <= i <= |ls| && forall j :: i <= j < |ls| ==> |ls[j].items| == 0
      {
        i := i - 1;
        assert ls[i] == dataArray[i].View();
        if dataArray[i].firstTime > 0.0 {
          LastOfList(ls, i);
          return Some(dataArray[i].firstTime);
        }
        if |ls[i].items| > 0 { FlatAt(ls, i, |ls[i].items| - 1); }
      }
      EmptyTail(ls, 0);
      OffsetZero(ls);
      return None;
    }

    /** The newer sample of the pair. */
    method PickNewer(iter: DataIter) returns (r: Sample)
      requires Valid() && iter.dataArray == dataArray && iter.Valid() && |All()| > 0 && iter.Pos() == 0
      modifies iter
      ensures iter.Valid() && iter.Pos() == Start(All(), minusLatestTime) && r == All()[iter.Pos()]
    {
      hide Flat, Offset, Scan, Packed, Good;
      FirstIsNewest(Levels(dataArray));
      assert Levels(dataArray)[0] == dataArray[0].View();
      var data1: Option<Sample> := None;
      if minusLatestTime > 0.0 {
        data1 := Locate(iter, dataArray[0].lastTime - minusLatestTime);
      }
      if data1 == None {
        var _ := iter.SetFirst();
        data1 := iter.GetCur();
      }
      return data1.value;
    }

    /** The older one, when the cursor has just moved past the newer. */
    method PickOlder(iter: DataIter, data1: Sample) returns (r: Option<Sample>)
      requires Valid() && iter.dataArray == dataArray && iter.Valid() && |All()| > 0
      modifies iter
      ensures var q := Scan(All(), old(iter.Pos()), data1.timestamp - deltaInterval);
              var last := All()[|All()| - 1];
              r == if q < |All()| then Some(All()[q]) else if last.timestamp == data1.timestamp then None else Some(last)
    {
      hide Flat, Offset, Scan, Packed, Good;
      r := Locate(iter, data1.timestamp - deltaInterval);
      if r == None {
        var _ := iter.SetLast();
        r := iter.GetCur();
        if r.value.timestamp == data1.timestamp {
          r := None;
        }
      }
    }

    method PickPair(iter: DataIter, data1: Sample) returns (r: Delta)
      requires Valid() && iter.dataArray == dataArray && iter.Valid() && |All()| > 0 && data1 == All()[iter.Pos()]
      modifies iter
      ensures r == PairAt(All(), old(iter.Pos()), deltaInterval)
    {
      hide Flat, Offset, Scan, Packed, Good, Levels;
      var next := iter.GetNext();
      if next != None {
        var data2 := PickOlder(iter, data1);
        return if data2 == None then One(data1) else Two(data1, data2.value);
      } else {
        var prev := iter.GetPrev();
        return if prev == None then One(data1) else Two(prev.value, data1);
      }
    }

    /** The pair to compare is the one a linear scan of the whole history picks. */
    method GetDelta() returns (r: Delta)
      requires Valid()
      ensures r == LinearDelta(All(), minusLatestTime, deltaInterval)
    {
      hide Flat, Offset, Packed, Good, Start, PairAt;
      GoodPacked(Levels(dataArray));
      FirstIsNewest(Levels(dataArray));
      assert Levels(dataArray)[0] == dataArray[0].View();
      if |dataArray[0].theList| == 0 {
        return NoData;
      }
      var iter := new DataIter(dataArray);
      var data1 := PickNewer(iter);
      r := PickPair(iter, data1);
    }
  }

  lemma {:induction false} LastOfList(ls: seq<Level>, i: nat)
    requires Good(ls, false) && Packed(ls) && i < |ls| && |ls[i].items| > 0
    requires i + 1 < |ls| ==> |ls[i + 1].items| == 0
    ensures |Flat(ls)| > 0 && Flat(ls)[|Flat(ls)| - 1].timestamp == ls[i].firstTime
  {
    OffsetNext(ls, i);
    EmptyTail(ls, i + 1);
    FlatAt(ls, i, |ls[i].items| - 1);
  }

  lemma {:induction false} FirstIsNewest(ls: seq<Level>)
    requires |ls| > 0 && Good(ls, false)
    ensures ls[0].lastTime == if |Flat(ls)| == 0 then 0.0 else Flat(ls)[0].timestamp
    ensures |ls[0].items| == 0 <==> |Flat(ls)| == 0
  {
    GoodPacked(ls);
    if |ls[0].items| == 0 {
      EmptyTail(ls, 0);
    } else {
      FlatAt(ls, 0, 0);
    }
  }
}
