/** What the scans find: where each stops, and that it stops nowhere else. */
module RequestScans {
  import opened Bytes
  import opened RequestSpec

  lemma {:induction false} TokenStops(b: seq<Byte>, i: nat, next: Byte)
    requires i <= |b|
    ensures TokenEnd(b, i, next).Found? ==>
              var j := TokenEnd(b, i, next).pos; b[j] == next && forall k :: i <= k < j ==> IsTokenChar(b[k])
    decreases |b| - i
  {
    if i < |b| && b[i] != next && IsTokenChar(b[i]) {
      TokenStops(b, i + 1, next);
    }
  }

  lemma {:induction false} PathStops(b: seq<Byte>, i: nat)
    requires i <= |b|
    ensures PathEnd(b, i).Found? ==>
              var j := PathEnd(b, i).pos; b[j] == ' ' && forall k :: i <= k < j ==> !IsControl(b[k]) && b[k] != ' '
    decreases |b| - i
  {
    if i < |b| && b[i] != ' ' && !IsControl(b[i]) {
      PathStops(b, i + 1);
    }
  }

  lemma {:induction false} TextStops(b: seq<Byte>, i: nat)
    requires i <= |b|
    ensures TextEnd(b, i).Found? ==>
              var j := TextEnd(b, i).pos; EndsText(b[j]) && forall k :: i <= k < j ==> !EndsText(b[k])
    decreases |b| - i
  {
    if i < |b| && !EndsText(b[i]) {
      TextStops(b, i + 1);
    }
  }

  lemma {:induction false} SpacesStops(b: seq<Byte>, i: nat)
    requires i <= |b|
    ensures SpacesEnd(b, i).Found? ==>
              var j := SpacesEnd(b, i).pos; b[j] != ' ' && forall k :: i <= k < j ==> b[k] == ' '
    decreases |b| - i
  {
    if i < |b| && b[i] == ' ' {
      SpacesStops(b, i + 1);
    }
  }

  lemma {:induction false} BlanksStops(b: seq<Byte>, i: nat)
    requires i <= |b|
    ensures BlanksEnd(b, i).Found? ==>
              var j := BlanksEnd(b, i).pos; !IsBlank(b[j]) && forall k :: i <= k < j ==> IsBlank(b[k])
    decreases |b| - i
  {
    if i < |b| && IsBlank(b[i]) {
      BlanksStops(b, i + 1);
    }
  }

  lemma {:induction false} TokenFinds(b: seq<Byte>, i: nat, j: nat, next: Byte)
    requires i <= j < |b| && b[j] == next && forall k :: i <= k < j ==> IsTokenChar(b[k]) && b[k] != next
    ensures TokenEnd(b, i, next) == Found(j)
    decreases j - i
  {
    if i < j {
      TokenFinds(b, i + 1, j, next);
    }
  }

  lemma {:induction false} PathFinds(b: seq<Byte>, i: nat, j: nat)
    requires i <= j < |b| && b[j] == ' ' && forall k :: i <= k < j ==> !IsControl(b[k]) && b[k] != ' '
    ensures PathEnd(b, i) == Found(j)
    decreases j - i
  {
    if i < j {
      PathFinds(b, i + 1, j);
    }
  }

  lemma {:induction false} TextFinds(b: seq<Byte>, i: nat, j: nat)
    requires i <= j < |b| && EndsText(b[j]) && forall k :: i <= k < j ==> !EndsText(b[k])
    ensures TextEnd(b, i) == Found(j)
    decreases j - i
  {
    if i < j {
      TextFinds(b, i + 1, j);
    }
  }

  lemma {:induction false} SpacesFinds(b: seq<Byte>, i: nat, j: nat)
    requires i <= j < |b| && b[j] != ' ' && forall k :: i <= k < j ==> b[k] == ' '
    ensures SpacesEnd(b, i) == Found(j)
    decreases j - i
  {
    if i < j {
      SpacesFinds(b, i + 1, j);
    }
  }

  lemma {:induction false} BlanksFinds(b: seq<Byte>, i: nat, j: nat)
    requires i <= j < |b| && !IsBlank(b[j]) && forall k :: i <= k < j ==> IsBlank(b[k])
    ensures BlanksEnd(b, i) == Found(j)
    decreases j - i
  {
    if i < j {
      BlanksFinds(b, i + 1, j);
    }
  }

  lemma {:induction false} TrimStops(b: seq<Byte>, start: nat, end: nat)
    requires start <= end <= |b|
    ensures var t := TrimEnd(b, start, end);
            (start < t ==> !IsBlank(b[t - 1])) && forall k :: t <= k < end ==> IsBlank(b[k])
    decreases end
  {
    if start < end && IsBlank(b[end - 1]) {
      TrimStops(b, start, end - 1);
    }
  }

  lemma {:induction false} TrimFinds(b: seq<Byte>, start: nat, t: nat, end: nat)
    requires start <= t <= end <= |b|
    requires (start < t ==> !IsBlank(b[t - 1])) && forall k :: t <= k < end ==> IsBlank(b[k])
    ensures TrimEnd(b, start, end) == t
    decreases end
  {
    if t < end {
      TrimFinds(b, start, t, end - 1);
    }
  }
}
