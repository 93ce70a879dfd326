/** One student's ID card: the drawing commands `generateIDCard` issues on a
    1012x638 canvas, at fixed integer anchors. Colours, fonts, gradients and
    rasterisation are not modelled; the PNG encoder and the QR encoder are
    parameters, and the photo is the outcome of loading the student's image. */
module IdCard {
  import opened Common
  import opened Store

  datatype Image = Image(data: Bytes)
  datatype Point = Point(x: int, y: int)
  /** A rectangle by its top-left corner, width and height. */
  datatype Rect = Rect(x: int, y: int, w: int, h: int)
  datatype Circle = Circle(cx: int, cy: int, r: int)
  datatype Align = Left | Center

  /** What is drawn on the canvas, in order. `FillPath` is `fill()` of the
      current path, the union of the rounded rectangles added to it since the
      last `beginPath` (corner radii are not modelled). */
  datatype DrawCmd =
    | FillRect(rect: Rect)
    | FillPath(subpaths: seq<Rect>)
    | FillText(text: string, at: Point, align: Align)
    | ClippedImage(img: Image, clip: Circle, dest: Rect)
    | StrokeCircle(circle: Circle)
    | FillCircle(circle: Circle)
    | DrawImage(img: Image, dest: Rect)
    | StrokePath(points: seq<Point>)

  /** The JSON object encoded in the QR code. */
  datatype QrPayload = QrPayload(name: string, admissionNo: string, college: string, email: string)

  const Width := 1012
  const Height := 638
  const CanvasRect := Rect(0, 0, Width, Height)
  /** The card overlay's rounded rectangle. */
  const Panel := Rect(40, 40, Width - 80, Height - 80)
  const TopBar := Rect(40, 40, Width - 80, 80)

  const PhotoSize := 180
  const PhotoX := 80
  const PhotoY := 180
  const PhotoBox := Rect(PhotoX, PhotoY, PhotoSize, PhotoSize)
  const PhotoCircle := Circle(PhotoX + PhotoSize / 2, PhotoY + PhotoSize / 2, PhotoSize / 2)
  /** The disc drawn when the photo cannot be loaded, written with literal numbers. */
  const PlaceholderCircle := Circle(170, 270, 90)

  const DetailsX := 300
  const FirstRowY := 200
  const LineHeight := 45
  const ValueOffset := 180

  const QrSize := 120
  const QrX := Width - QrSize - 80
  const QrY := Height - QrSize - 60
  const QrBox := Rect(QrX, QrY, QrSize, QrSize)

  const Subtitle := "STUDENT ID CARD"
  const QrLabel := "Scan for Details"
  const FooterLine := "Valid for Academic Year 2024-2025"

  // ---------------------------------------------------------------------
  // Geometry

  predicate PointIn(p: Point, r: Rect) {
    r.x <= p.x <= r.x + r.w && r.y <= p.y <= r.y + r.h
  }

  predicate RectIn(a: Rect, r: Rect) {
    r.x <= a.x && a.x + a.w <= r.x + r.w && r.y <= a.y && a.y + a.h <= r.y + r.h
  }

  /** The square a circle is inscribed in. */
  function CircleBox(c: Circle): Rect {
    Rect(c.cx - c.r, c.cy - c.r, 2 * c.r, 2 * c.r)
  }

  /** Two rectangles share no interior point. */
  predicate Disjoint(a: Rect, b: Rect) {
    a.x + a.w <= b.x || b.x + b.w <= a.x || a.y + a.h <= b.y || b.y + b.h <= a.y
  }

  /** Every anchor, rectangle and circle of the command lies inside `r`
      (a text is placed by its anchor; its rendered extent depends on the font). */
  predicate CmdWithin(c: DrawCmd, r: Rect) {
    match c
    case FillRect(a) => RectIn(a, r)
    case FillPath(ps) => forall i :: 0 <= i < |ps| ==> RectIn(ps[i], r)
    case FillText(_, p, _) => PointIn(p, r)
    case ClippedImage(_, clip, dest) => RectIn(CircleBox(clip), r) && RectIn(dest, r)
    case StrokeCircle(k) => RectIn(CircleBox(k), r)
    case FillCircle(k) => RectIn(CircleBox(k), r)
    case DrawImage(_, dest) => RectIn(dest, r)
    case StrokePath(ps) => forall i :: 0 <= i < |ps| ==> PointIn(ps[i], r)
  }

  predicate AllWithin(cmds: seq<DrawCmd>, r: Rect) {
    forall i :: 0 <= i < |cmds| ==> CmdWithin(cmds[i], r)
  }

  lemma AllWithinConcat(a: seq<DrawCmd>, b: seq<DrawCmd>, r: Rect)
    requires AllWithin(a, r) && AllWithin(b, r)
    ensures AllWithin(a + b, r)
  {
    assert forall i :: |a| <= i < |a + b| ==> (a + b)[i] == b[i - |a|];
  }

  // ---------------------------------------------------------------------
  // The card, segment by segment

  /** Background; the panel's path filled white; the top bar's rectangle
      added to that same path (there is no `beginPath` in between) and the
      whole path filled with the bar's gradient; the upper-cased college
      name; the subtitle. */
  function HeaderCommands(collegeName: string): seq<DrawCmd> {
    [ FillRect(CanvasRect),
      FillPath([Panel]),
      FillPath([Panel, TopBar]),
      FillText(ToUpper(collegeName), Point(Width / 2, 90), Center),
      FillText(Subtitle, Point(Width / 2, 150), Center) ]
  }

  /** The photo clipped to a circle with a border, or the grey placeholder
      disc when loading the photo failed. */
  function PhotoCommands(photo: Option<Image>): seq<DrawCmd> {
    match photo
    case Some(img) => [ClippedImage(img, PhotoCircle, PhotoBox), StrokeCircle(PhotoCircle)]
    case None => [FillCircle(PlaceholderCircle)]
  }

  /** `drawDetail(label, value, y)`: the label at the column, the value 180px right of it. */
  function DrawDetail(caption: string, value: string, y: int): seq<DrawCmd> {
    [FillText(caption, Point(DetailsX, y), Left), FillText(value, Point(DetailsX + ValueOffset, y), Left)]
  }

  /** The six (label, value) rows, top to bottom. */
  function DetailRows(s: Student, localeDate: Date -> string): seq<(string, string)> {
    [ ("Name:", s.name),
      ("Admission No:", s.admissionNo),
      ("Class:", s.studentClass + " - " + s.section),
      ("Phone:", s.phone),
      ("Father:", s.fatherName),
      ("DOB:", localeDate(s.dob)) ]
  }

  /** Baseline of row k. */
  function RowY(k: nat): int {
    FirstRowY + k * LineHeight
  }

  /** Rows drawn one under the other, each LineHeight below the previous one. */
  function DetailCommands(rows: seq<(string, string)>): seq<DrawCmd>
    decreases |rows|
  {
    if rows == [] then []
    else
      var n := |rows| - 1;
      DetailCommands(rows[..n]) + DrawDetail(rows[n].0, rows[n].1, RowY(n))
  }

  lemma DetailCommandsSnoc(rows: seq<(string, string)>, k: nat)
    requires k < |rows|
    ensures DetailCommands(rows[..k + 1]) == DetailCommands(rows[..k]) + DrawDetail(rows[k].0, rows[k].1, RowY(k))
  {
    assert rows[..k + 1][..k] == rows[..k];
  }

  /** The six rows written out, as the card generator draws them with
      `detailsY += lineHeight` between them. */
  lemma SixRows(s: Student, localeDate: Date -> string)
    ensures DetailCommands(DetailRows(s, localeDate))
         == DrawDetail("Name:", s.name, 200)
          + DrawDetail("Admission No:", s.admissionNo, 245)
          + DrawDetail("Class:", s.studentClass + " - " + s.section, 290)
          + DrawDetail("Phone:", s.phone, 335)
          + DrawDetail("Father:", s.fatherName, 380)
          + DrawDetail("DOB:", localeDate(s.dob), 425)
  {
    var rows := DetailRows(s, localeDate);
    assert rows[..0] == [];
    DetailCommandsSnoc(rows, 0);
    DetailCommandsSnoc(rows, 1);
    DetailCommandsSnoc(rows, 2);
    DetailCommandsSnoc(rows, 3);
    DetailCommandsSnoc(rows, 4);
    DetailCommandsSnoc(rows, 5);
    assert rows[..6] == rows;
  }

  function QrPayloadOf(s: Student, collegeName: string): (p: QrPayload)
    ensures p.name == s.name && p.admissionNo == s.admissionNo
    ensures p.college == collegeName && p.email == s.email
  {
    QrPayload(s.name, s.admissionNo, collegeName, s.email)
  }

  /** The QR code and its caption centred under it. */
  function QrCommands(qr: Image): seq<DrawCmd> {
    [DrawImage(qr, QrBox), FillText(QrLabel, Point(QrX + QrSize / 2, QrY + QrSize + 20), Center)]
  }

  const Footer := FillText(FooterLine, Point(Width / 2, Height - 30), Center)

  /** The four L-shaped corner marks. */
  const Corners := [
    StrokePath([Point(60, 80), Point(60, 60), Point(80, 60)]),
    StrokePath([Point(Width - 80, 60), Point(Width - 60, 60), Point(Width - 60, 80)]),
    StrokePath([Point(60, Height - 80), Point(60, Height - 60), Point(80, Height - 60)]),
    StrokePath([Point(Width - 80, Height - 60), Point(Width - 60, Height - 60), Point(Width - 60, Height - 80)])
  ]

  /** Everything drawn on a card, in drawing order. */
  function CardCommands(s: Student, collegeName: string, photo: Option<Image>, qr: Image,
                        localeDate: Date -> string): seq<DrawCmd>
  {
    HeaderCommands(collegeName) + PhotoCommands(photo) + DetailCommands(DetailRows(s, localeDate))
    + QrCommands(qr) + [Footer] + Corners
  }

  /** The PNG of the card, or nothing when QR generation fails: that failure
      is not caught inside the card generator, so it aborts the whole card. */
  function RenderCard(s: Student, collegeName: string, photo: Option<Image>,
                      encodeQr: QrPayload -> Option<Image>, localeDate: Date -> string,
                      png: seq<DrawCmd> -> Bytes): Option<Bytes>
  {
    match encodeQr(QrPayloadOf(s, collegeName))
    case None => None
    case Some(qr) => Some(png(CardCommands(s, collegeName, photo, qr, localeDate)))
  }

  lemma AppendSixAssoc(h: seq<DrawCmd>, a: seq<DrawCmd>, b: seq<DrawCmd>, c: seq<DrawCmd>,
                       d: seq<DrawCmd>, e: seq<DrawCmd>, f: seq<DrawCmd>)
    ensures h + a + b + c + d + e + f == h + (a + b + c + d + e + f)
  {
  }

  /** `generateIDCard`: draws on a fresh canvas step by step and encodes it.
      `photo` is the outcome of loading the student's image. */
  method GenerateIDCard(s: Student, collegeName: string, photo: Option<Image>,
                        encodeQr: QrPayload -> Option<Image>, localeDate: Date -> string,
                        png: seq<DrawCmd> -> Bytes)
    returns (card: Option<Bytes>)
    ensures card == RenderCard(s, collegeName, photo, encodeQr, localeDate, png)
  {
    var ctx: seq<DrawCmd> := [];
    var path: seq<Rect> := [];
    ctx := ctx + [FillRect(CanvasRect)];
    path := path + [Panel];
    assert path == [Panel];
    ctx := ctx + [FillPath(path)];
    path := path + [TopBar];
    assert path == [Panel, TopBar];
    ctx := ctx + [FillPath(path)];
    ctx := ctx + [FillText(ToUpper(collegeName), Point(Width / 2, 90), Center)];
    ctx := ctx + [FillText(Subtitle, Point(Width / 2, 150), Center)];
    assert ctx == HeaderCommands(collegeName);

    match photo {
      case Some(img) =>
        ctx := ctx + [ClippedImage(img, PhotoCircle, PhotoBox)];
        ctx := ctx + [StrokeCircle(PhotoCircle)];
      case None =>
        ctx := ctx + [FillCircle(PlaceholderCircle)];
    }
    var head := ctx;
    assert head == HeaderCommands(collegeName) + PhotoCommands(photo);

    var detailsY := FirstRowY;
    ctx := ctx + DrawDetail("Name:", s.name, detailsY);
    detailsY := detailsY + LineHeight;
    ctx := ctx + DrawDetail("Admission No:", s.admissionNo, detailsY);
    detailsY := detailsY + LineHeight;
    ctx := ctx + DrawDetail("Class:", s.studentClass + " - " + s.section, detailsY);
    detailsY := detailsY + LineHeight;
    ctx := ctx + DrawDetail("Phone:", s.phone, detailsY);
    detailsY := detailsY + LineHeight;
    ctx := ctx + DrawDetail("Father:", s.fatherName, detailsY);
    detailsY := detailsY + LineHeight;
    ctx := ctx + DrawDetail("DOB:", localeDate(s.dob), detailsY);
    SixRows(s, localeDate);
    AppendSixAssoc(head, DrawDetail("Name:", s.name, 200), DrawDetail("Admission No:", s.admissionNo, 245),
                   DrawDetail("Class:", s.studentClass + " - " + s.section, 290), DrawDetail("Phone:", s.phone, 335),
                   DrawDetail("Father:", s.fatherName, 380), DrawDetail("DOB:", localeDate(s.dob), 425));
    var body := ctx;
    assert body == head + DetailCommands(DetailRows(s, localeDate));

    var qrData := QrPayloadOf(s, collegeName);
    var qrImg := encodeQr(qrData);
    if qrImg.None? {
      return None;
    }
    ctx := ctx + [DrawImage(qrImg.value, QrBox)];
    ctx := ctx + [FillText(QrLabel, Point(QrX + QrSize / 2, QrY + QrSize + 20), Center)];
    ctx := ctx + [Footer];
    ctx := ctx + [Corners[0]];
    ctx := ctx + [Corners[1]];
    ctx := ctx + [Corners[2]];
    ctx := ctx + [Corners[3]];
    assert ctx == body + QrCommands(qrImg.value) + [Footer] + Corners;
    card := Some(png(ctx));
  }

  // ---------------------------------------------------------------------
  // Properties of the layout

  /** The canvas and panel dimensions, the photo square, and the QR square. */
  lemma LayoutConstants()
    ensures CanvasRect == Rect(0, 0, 1012, 638)
    ensures Panel == Rect(40, 40, 932, 558)
    ensures PhotoBox == Rect(80, 180, 180, 180) && CircleBox(PhotoCircle) == PhotoBox
    ensures QrBox == Rect(812, 458, 120, 120)
  {
  }

  /** Row k is drawn at the column x = 300 (label) and x = 480 (value), on the
      baseline 200 + 45k; the rows produce two commands each. */
  lemma {:induction false} DetailRowAnchors(rows: seq<(string, string)>, k: nat)
    requires k < |rows|
    ensures |DetailCommands(rows)| == 2 * |rows|
    ensures DetailCommands(rows)[2 * k] == FillText(rows[k].0, Point(300, 200 + 45 * k), Left)
    ensures DetailCommands(rows)[2 * k + 1] == FillText(rows[k].1, Point(480, 200 + 45 * k), Left)
    decreases |rows|
  {
    var n := |rows| - 1;
    DetailCommandsLength(rows[..n]);
    if k < n {
      DetailRowAnchors(rows[..n], k);
    }
  }

  lemma {:induction false} DetailCommandsLength(rows: seq<(string, string)>)
    ensures |DetailCommands(rows)| == 2 * |rows|
    decreases |rows|
  {
    if rows != [] {
      DetailCommandsLength(rows[..|rows| - 1]);
    }
  }

  /** All detail anchors lie in the column band between the photo and the
      QR code: x in 300..480, y from 200 to the last row's baseline. */
  lemma {:induction false} DetailsInBand(rows: seq<(string, string)>)
    requires rows != []
    ensures AllWithin(DetailCommands(rows), Rect(DetailsX, FirstRowY, ValueOffset, (|rows| - 1) * LineHeight))
    decreases |rows|
  {
    var n := |rows| - 1;
    var band := Rect(DetailsX, FirstRowY, ValueOffset, n * LineHeight);
    if n > 0 {
      DetailsInBand(rows[..n]);
      var smaller := Rect(DetailsX, FirstRowY, ValueOffset, (n - 1) * LineHeight);
      forall i | 0 <= i < |DetailCommands(rows[..n])|
        ensures CmdWithin(DetailCommands(rows[..n])[i], band)
      {
        assert CmdWithin(DetailCommands(rows[..n])[i], smaller);
      }
    } else {
      assert rows[..n] == [];
    }
    AllWithinConcat(DetailCommands(rows[..n]), DrawDetail(rows[n].0, rows[n].1, RowY(n)), band);
  }

  /** The six rows end at baseline 425, above the QR code's top edge (458),
      and start below the top bar; the photo square lies left of the detail
      column and does not meet the QR square. */
  lemma RegionsApart(s: Student, localeDate: Date -> string)
    ensures |DetailRows(s, localeDate)| == 6 && RowY(5) == 425
    ensures RowY(5) < QrY && TopBar.y + TopBar.h < RowY(0)
    ensures PhotoBox.x + PhotoBox.w < DetailsX
    ensures Disjoint(PhotoBox, QrBox) && Disjoint(TopBar, PhotoBox) && Disjoint(TopBar, QrBox)
    ensures DetailsX + ValueOffset < QrX
  {
  }

  /** A point painted by a fill of `path`. */
  predicate Covers(path: seq<Rect>, p: Point) {
    exists i :: 0 <= i < |path| && PointIn(p, path[i])
  }

  /** The top-bar fill repaints the whole panel: it covers every point the
      white fill covered, and no other; so the subtitle, anchored below the
      top bar, is drawn on the bar's gradient rather than on white. */
  lemma TopBarFillRepaintsPanel(collegeName: string)
    ensures HeaderCommands(collegeName)[1] == FillPath([Panel])
    ensures HeaderCommands(collegeName)[2] == FillPath([Panel, TopBar])
    ensures forall p :: Covers([Panel], p) ==> Covers([Panel, TopBar], p)
    ensures forall p :: Covers([Panel, TopBar], p) <==> PointIn(p, Panel)
    ensures Covers([Panel, TopBar], Point(Width / 2, 150)) && !PointIn(Point(Width / 2, 150), TopBar)
  {
    forall p | Covers([Panel], p) ensures Covers([Panel, TopBar], p) {
      assert PointIn(p, [Panel, TopBar][0]);
    }
    forall p ensures Covers([Panel, TopBar], p) <==> PointIn(p, Panel) {
      if PointIn(p, Panel) {
        assert PointIn(p, [Panel, TopBar][0]);
      }
    }
    assert PointIn(Point(Width / 2, 150), [Panel, TopBar][0]);
  }

  lemma HeaderInPanel(collegeName: string)
    ensures AllWithin(HeaderCommands(collegeName)[1..], Panel)
    ensures CmdWithin(HeaderCommands(collegeName)[0], CanvasRect)
  {
  }

  lemma PhotoInPanel(photo: Option<Image>)
    ensures AllWithin(PhotoCommands(photo), Panel)
  {
  }

  lemma QrInPanel(qr: Image)
    ensures AllWithin(QrCommands(qr), Panel)
  {
  }

  lemma CornersInPanel()
    ensures AllWithin(Corners, Panel)
  {
    assert CmdWithin(Corners[0], Panel);
    assert CmdWithin(Corners[1], Panel);
    assert CmdWithin(Corners[2], Panel);
    assert CmdWithin(Corners[3], Panel);
  }

  /** The card with the background and the footer taken out. */
  function CardBody(s: Student, collegeName: string, photo: Option<Image>, qr: Image,
                    localeDate: Date -> string): seq<DrawCmd>
  {
    HeaderCommands(collegeName)[1..] + PhotoCommands(photo) + DetailCommands(DetailRows(s, localeDate)) + QrCommands(qr)
  }

  lemma DetailsInPanel(rows: seq<(string, string)>)
    requires 0 < |rows| <= 6
    ensures AllWithin(DetailCommands(rows), Panel)
  {
    DetailsInBand(rows);
    var band := Rect(DetailsX, FirstRowY, ValueOffset, (|rows| - 1) * LineHeight);
    forall i | 0 <= i < |DetailCommands(rows)| ensures CmdWithin(DetailCommands(rows)[i], Panel) {
      assert CmdWithin(DetailCommands(rows)[i], band);
    }
  }

  lemma CardBodyInPanel(s: Student, collegeName: string, photo: Option<Image>, qr: Image, localeDate: Date -> string)
    ensures AllWithin(CardBody(s, collegeName, photo, qr, localeDate), Panel)
  {
    var header := HeaderCommands(collegeName)[1..];
    var details := DetailCommands(DetailRows(s, localeDate));
    HeaderInPanel(collegeName);
    PhotoInPanel(photo);
    DetailsInPanel(DetailRows(s, localeDate));
    QrInPanel(qr);
    AllWithinConcat(header, PhotoCommands(photo), Panel);
    AllWithinConcat(header + PhotoCommands(photo), details, Panel);
    AllWithinConcat(header + PhotoCommands(photo) + details, QrCommands(qr), Panel);
  }

  /** Every command of a card except the background and the footer line lies
      inside the panel; the background covers exactly the canvas, and
      the footer's anchor lies below the panel but still on the canvas. */
  lemma CardLayout(s: Student, collegeName: string, photo: Option<Image>, qr: Image, localeDate: Date -> string)
    ensures CardCommands(s, collegeName, photo, qr, localeDate)[0] == FillRect(CanvasRect)
    ensures forall i :: 0 <= i < |CardCommands(s, collegeName, photo, qr, localeDate)| ==>
              var c := CardCommands(s, collegeName, photo, qr, localeDate)[i];
              CmdWithin(c, CanvasRect) && (c == FillRect(CanvasRect) || c == Footer || CmdWithin(c, Panel))
    ensures !CmdWithin(Footer, Panel) && CmdWithin(Footer, CanvasRect)
  {
    var body := CardBody(s, collegeName, photo, qr, localeDate);
    CardBodyInPanel(s, collegeName, photo, qr, localeDate);
    CornersInPanel();
    AllWithinConcat(body, Corners, Panel);
    assert CardCommands(s, collegeName, photo, qr, localeDate) == [FillRect(CanvasRect)] + body + [Footer] + Corners;
    FramedLayout(body, Corners);
  }

  lemma PanelWithinCanvas(c: DrawCmd)
    requires CmdWithin(c, Panel)
    ensures CmdWithin(c, CanvasRect)
  {
  }

  lemma FramedLayout(body: seq<DrawCmd>, marks: seq<DrawCmd>)
    requires AllWithin(body + marks, Panel)
    ensures forall i :: 0 <= i < |[FillRect(CanvasRect)] + body + [Footer] + marks| ==>
              var c := ([FillRect(CanvasRect)] + body + [Footer] + marks)[i];
              CmdWithin(c, CanvasRect) && (c == FillRect(CanvasRect) || c == Footer || CmdWithin(c, Panel))
  {
    var cmds := [FillRect(CanvasRect)] + body + [Footer] + marks;
    forall i | 0 <= i < |cmds|
      ensures CmdWithin(cmds[i], CanvasRect) && (cmds[i] == FillRect(CanvasRect) || cmds[i] == Footer || CmdWithin(cmds[i], Panel))
    {
      if i == 0 {
      } else if i <= |body| {
        assert cmds[i] == (body + marks)[i - 1];
        PanelWithinCanvas(cmds[i]);
      } else if i == |body| + 1 {
        assert cmds[i] == Footer;
      } else {
        assert cmds[i] == (body + marks)[i - 2];
        PanelWithinCanvas(cmds[i]);
      }
    }
  }

  /** The title is the college name upper-cased: same length, no lower-case
      letter, every other character kept. */
  lemma TitleUpperCased(s: Student, collegeName: string, photo: Option<Image>, qr: Image, localeDate: Date -> string)
    ensures CardCommands(s, collegeName, photo, qr, localeDate)[3].FillText?
    ensures CardCommands(s, collegeName, photo, qr, localeDate)[3].text == ToUpper(collegeName)
    ensures !HasLower(CardCommands(s, collegeName, photo, qr, localeDate)[3].text)
  {
    UpperHasNoLower(collegeName);
  }

  /** The Class row shows class and section joined by " - ", and the DOB row
      the locale-formatted date of birth. */
  lemma ClassAndDobRows(s: Student, localeDate: Date -> string)
    ensures |DetailCommands(DetailRows(s, localeDate))| == 12
    ensures DetailCommands(DetailRows(s, localeDate))[5] == FillText(s.studentClass + " - " + s.section, Point(480, 290), Left)
    ensures DetailCommands(DetailRows(s, localeDate))[11] == FillText(localeDate(s.dob), Point(480, 425), Left)
  {
    DetailRowAnchors(DetailRows(s, localeDate), 2);
    DetailRowAnchors(DetailRows(s, localeDate), 5);
  }

  /** A failed photo load degrades the card to the placeholder disc, which
      occupies exactly the circle the photo would have been clipped to. */
  lemma PlaceholderTakesPhotoPlace(img: Image)
    ensures PhotoCommands(None) == [FillCircle(PlaceholderCircle)]
    ensures PlaceholderCircle == PhotoCommands(Some(img))[0].clip == PhotoCommands(Some(img))[1].circle
  {
  }

  /** Whether a card is produced depends on the QR code alone: the photo
      outcome never decides it, and a QR failure always drops the card. */
  lemma CardProducedIffQrEncodes(s: Student, collegeName: string, photo: Option<Image>,
                                 encodeQr: QrPayload -> Option<Image>, localeDate: Date -> string,
                                 png: seq<DrawCmd> -> Bytes)
    ensures RenderCard(s, collegeName, photo, encodeQr, localeDate, png).Some?
        <==> encodeQr(QrPayload(s.name, s.admissionNo, collegeName, s.email)).Some?
  {
  }

  /** Two photo outcomes give cards that differ only in the photo segment. */
  lemma PhotoOnlyChangesPhotoSegment(s: Student, collegeName: string, p1: Option<Image>, p2: Option<Image>,
                                     qr: Image, localeDate: Date -> string)
    ensures CardCommands(s, collegeName, p1, qr, localeDate)[..5] == CardCommands(s, collegeName, p2, qr, localeDate)[..5]
    ensures CardCommands(s, collegeName, p1, qr, localeDate)[5 + |PhotoCommands(p1)|..]
         == CardCommands(s, collegeName, p2, qr, localeDate)[5 + |PhotoCommands(p2)|..]
  {
    var tail := DetailCommands(DetailRows(s, localeDate)) + QrCommands(qr) + [Footer] + Corners;
    assert CardCommands(s, collegeName, p1, qr, localeDate) == HeaderCommands(collegeName) + PhotoCommands(p1) + tail;
    assert CardCommands(s, collegeName, p2, qr, localeDate) == HeaderCommands(collegeName) + PhotoCommands(p2) + tail;
  }
}
