/** Which picture and caption the page shows beside the albedo histogram:
    the band of the widest bar decides between fresh snow, wet snow and
    dark, bare ice. */
module Classification {
  import opened Tables
  import opened Loaders

  datatype Band = FreshSnow | WetSnow | DarkIce

  /** The band a bar stands for, read off where it starts on the albedo axis. */
  function BandOf(yfrom: int): Band
  {
    if yfrom == 60 then FreshSnow
    else if yfrom == 40 then WetSnow
    else DarkIce
  }

  function Title(b: Band): string
  {
    match b
    case FreshSnow => "Mostly Fresh Snow"
    case WetSnow => "Mostly Wet Snow"
    case DarkIce => "Mostly Dark, Bare Ice"
  }

  function ImageFile(b: Band): string
  {
    match b
    case FreshSnow => "./resources/FreshSnow.jpg"
    case WetSnow => "./resources/WetSnow.jpg"
    case DarkIce => "./resources/DarkIce.jpg"
  }

  /** The widest bar's width, and 0 when no bar is wider than that. */
  function MaxWidth(s: seq<Rect>): (m: real)
    ensures m >= 0.0
    ensures forall j :: 0 <= j < |s| ==> s[j].w <= m
    ensures m == 0.0 || exists j :: 0 <= j < |s| && s[j].w == m
  {
    if s == [] then 0.0
    else
      var m := MaxWidth(s[..|s| - 1]);
      var last := s[|s| - 1].w;
      assert forall j :: 0 <= j < |s| - 1 ==> s[..|s| - 1][j] == s[j];
      if last > m then last else m
  }

  /** The first position whose bar has width `w`, or |s| when there is none. */
  function FirstWithWidth(s: seq<Rect>, w: real): (k: nat)
    ensures k <= |s|
    ensures k < |s| ==> s[k].w == w
    ensures forall j :: 0 <= j < k ==> s[j].w != w
  {
    if s == [] then 0
    else if s[0].w == w then 0
    else 1 + FirstWithWidth(s[1..], w)
  }

  /** The position of the dominant bar: the first bar of greatest width,
      provided that width is positive. */
  function Dominant(s: seq<Rect>): (k: Option<nat>)
    ensures k.Some? ==> k.value < |s|
  {
    var m := MaxWidth(s);
    if m == 0.0 then None else Some(FirstWithWidth(s, m))
  }

  /** The band of the dominant bar, if there is one. */
  function DominantBand(s: seq<Rect>): Option<Band>
  {
    match Dominant(s)
    case None => None
    case Some(k) => Some(BandOf(s[k].yfrom))
  }

  /** Dominant picks exactly the first bar that is wider than 0 and than
      every bar before it, and at least as wide as every bar after it: a later
      bar of equal width never takes its place. */
  lemma DominantIsFirstWidest(s: seq<Rect>, k: nat)
    ensures Dominant(s) == Some(k) <==>
              && k < |s| && s[k].w > 0.0
              && (forall j :: 0 <= j < |s| ==> s[j].w <= s[k].w)
              && (forall j :: 0 <= j < k ==> s[j].w < s[k].w)
  {
    var m := MaxWidth(s);
    if k < |s| && s[k].w > 0.0 && (forall j :: 0 <= j < |s| ==> s[j].w <= s[k].w)
       && (forall j :: 0 <= j < k ==> s[j].w < s[k].w)
    {
      assert s[k].w == m;
      var f := FirstWithWidth(s, m);
      assert f == k;
    }
  }

  /** There is no dominant bar exactly when no bar has a positive width. */
  lemma NoDominantIffNoPositiveWidth(s: seq<Rect>)
    ensures Dominant(s) == None <==> forall j :: 0 <= j < |s| ==> s[j].w <= 0.0
  {
    if Dominant(s) == None {
      assert MaxWidth(s) == 0.0;
    } else {
      assert s[Dominant(s).value].w > 0.0;
    }
  }

  /** Appending one bar extends the running maximum and replaces the dominant
      bar only when the new bar is strictly wider than everything before it. */
  lemma {:induction false} DominantSnoc(s: seq<Rect>, x: Rect)
    ensures MaxWidth(s + [x]) == if x.w > MaxWidth(s) then x.w else MaxWidth(s)
    ensures Dominant(s + [x]) == if x.w > MaxWidth(s) then Some(|s|) else Dominant(s)
  {
    var t := s + [x];
    assert t[..|t| - 1] == s;
    var m := MaxWidth(s);
    if x.w > m {
      assert t[|s|].w == x.w;
      var f := FirstWithWidth(t, x.w);
      assert f == |s|;
    } else if m != 0.0 {
      var j :| 0 <= j < |s| && s[j].w == m;
      var fs := FirstWithWidth(s, m);
      assert fs <= j;
      assert t[fs].w == m;
      var ft := FirstWithWidth(t, m);
      assert ft == fs;
    }
  }

  /** The loop that follows the histogram drawing: it keeps the running
      maximum width `maxy` and relabels the picture whenever a bar is strictly
      wider than all bars so far. `title` is None when it is never assigned. */
  method Classify(rectangles: seq<Rect>) returns (maxy: real, imageFile: string, title: Option<string>)
    ensures maxy == MaxWidth(rectangles)
    ensures DominantBand(rectangles).None? ==> imageFile == "" && title == None
    ensures DominantBand(rectangles).Some? ==>
              imageFile == ImageFile(DominantBand(rectangles).value) &&
              title == Some(Title(DominantBand(rectangles).value))
  {
    maxy := 0.0;
    imageFile := "";
    title := None;
    for i := 0 to |rectangles|
      invariant maxy == MaxWidth(rectangles[..i])
      invariant DominantBand(rectangles[..i]).None? ==> imageFile == "" && title == None
      invariant DominantBand(rectangles[..i]).Some? ==>
                  imageFile == ImageFile(DominantBand(rectangles[..i]).value) &&
                  title == Some(Title(DominantBand(rectangles[..i]).value))
    {
      var rectangle := rectangles[i];
      assert rectangles[..i + 1] == rectangles[..i] + [rectangle];
      DominantSnoc(rectangles[..i], rectangle);
      if rectangle.w > maxy {
        if rectangle.yfrom == 60 {
          imageFile := "./resources/FreshSnow.jpg";
          title := Some("Mostly Fresh Snow");
        } else if rectangle.yfrom == 40 {
          imageFile := "./resources/WetSnow.jpg";
          title := Some("Mostly Wet Snow");
        } else {
          imageFile := "./resources/DarkIce.jpg";
          title := Some("Mostly Dark, Bare Ice");
        }
      }
      maxy := if maxy >= rectangle.w then maxy else rectangle.w;
    }
    assert rectangles[..|rectangles|] == rectangles;
  }

  /** A picture is loaded (the image file name is not empty) exactly when a
      caption was set, i.e. when some bar has a positive width. */
  lemma PictureShownIffPositiveWidth(s: seq<Rect>)
    ensures DominantBand(s).Some? <==> exists j :: 0 <= j < |s| && s[j].w > 0.0
    ensures DominantBand(s).Some? ==> |ImageFile(DominantBand(s).value)| > 0
  {
    NoDominantIffNoPositiveWidth(s);
  }

  /** The worked case: of bars 5, 9 and 3 wide starting at 60, 40 and 0, the
      9-wide bar decides, so the day is mostly wet snow. */
  lemma WidestBarDecides()
    ensures DominantBand([Rect(60, 5.0, 20.0), Rect(40, 9.0, 20.0), Rect(0, 3.0, 40.0)]) == Some(WetSnow)
  {
    var s := [Rect(60, 5.0, 20.0), Rect(40, 9.0, 20.0), Rect(0, 3.0, 40.0)];
    DominantIsFirstWidest(s, 1);
  }
}
