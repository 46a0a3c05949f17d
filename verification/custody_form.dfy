/** The custody form for one asset: the PDF file name and the sequence of
    `drawString` calls that lay the form out on a US-letter page. Rendering
    itself (fonts, PDF bytes) is not modelled; the draw list is the form's
    content and layout. */
module CustodyForm {
  import opened Wrappers
  import opened Dates
  import opened Assets

  /** One `drawString` call: position in points from the lower-left corner
      of the page, font size in points, and the text. */
  datatype Draw = Draw(x: int, y: int, size: nat, text: string)

  /** US letter, in points. */
  const PageWidth: int := 612
  const PageHeight: int := 792

  const TitleSize: nat := 16
  const BodySize: nat := 12

  /** The heading exactly as the form prints it, dotted capital I included. */
  const Title: string := "DEM\U{0130}BAS Z\U{0130}MMET FORMU"

  /** Baseline of the first attribute row, and the drop to each next row. */
  const FirstRowY: int := 690
  const RowStep: int := 20

  const LabelX: int := 120
  const ValueX: int := 250

  /** Left (receiver) and right (deliverer) signature columns. */
  const ReceiverX: int := 100
  const DelivererX: int := 400

  const SignatureRule: string := "..............................."

  const AttributeLabels: seq<string> :=
    ["Demirbas No:", "Bilgisayar Adi:", "Marka:", "Islemci:",
     "RAM:", "Depolama:", "Sarf Malzeme:", "Seri No:"]

  /** The attribute values in the order the form lists them: tag first,
      then name, brand, cpu, ram, storage, consumables, serial number. */
  function AttributeValues(f: Fields): (v: seq<string>)
    ensures |v| == |AttributeLabels|
  {
    [f.assetTag, f.computerName, f.brand, f.cpu, f.ram, f.storage, f.consumables, f.serialNo]
  }

  /** `Zimmet_<tag>_<yyyymmdd>.pdf`, dated the day the form is produced. The
      tag and the date can be read back from the name. */
  function FileName(tag: string, today: Date): (name: string)
    requires ValidDate(today)
    ensures |name| == |tag| + 20
    ensures name[..7] == "Zimmet_"
    ensures name[7..7 + |tag|] == tag
    ensures name[|name| - 13] == '_'
    ensures ParseCompactDate(name[|name| - 12..|name| - 4]) == Some(today)
    ensures name[|name| - 4..] == ".pdf"
  {
    var name := "Zimmet_" + tag + "_" + CompactDate(today) + ".pdf";
    assert name[|name| - 12..|name| - 4] == CompactDate(today);
    CompactDateRoundTrip(today);
    name
  }

  /** Every call draws inside the page. */
  predicate OnPage(cmds: seq<Draw>) {
    forall i :: 0 <= i < |cmds| ==>
      0 <= cmds[i].x < PageWidth && 0 <= cmds[i].y < PageHeight
  }

  /** The attribute row `k` (0-based): label at x = 120 and value at
      x = 250 on the baseline 690 - 20k. */
  predicate AttributeRowAt(cmds: seq<Draw>, f: Fields, k: int)
    requires 0 <= k < |AttributeLabels| && 4 + 2 * k < |cmds|
  {
    && cmds[3 + 2 * k] == Draw(LabelX, FirstRowY - RowStep * k, BodySize, AttributeLabels[k])
    && cmds[4 + 2 * k] == Draw(ValueX, FirstRowY - RowStep * k, BodySize, AttributeValues(f)[k])
  }

  /** `zimmet_cikar`: the file name and the draw calls, in order. Three
      heading lines; the eight attribute rows, one label/value pair per row
      20 points apart; then, measured from the baseline 530 that follows the
      last row, the custodian heading and name, the two party headings, the
      two signature rules and the two "Imza" captions. */
  method RenderForm(a: Asset, today: Date) returns (name: string, cmds: seq<Draw>)
    requires ValidDate(today)
    ensures name == FileName(a.fields.assetTag, today)
    ensures |cmds| == 28
    ensures cmds[0] == Draw(100, 750, TitleSize, Title)
    ensures cmds[1] == Draw(100, 730, BodySize, "Zimmet Tarihi: " + a.fields.custodyDate)
    ensures cmds[2] == Draw(100, 710, BodySize, "Demirbas Bilgileri:")
    ensures forall k :: 0 <= k < |AttributeLabels| ==> AttributeRowAt(cmds, a.fields, k)
    ensures && cmds[3].text == "Demirbas No:" && cmds[4].text == a.fields.assetTag
            && cmds[5].text == "Bilgisayar Adi:" && cmds[6].text == a.fields.computerName
            && cmds[7].text == "Marka:" && cmds[8].text == a.fields.brand
            && cmds[9].text == "Islemci:" && cmds[10].text == a.fields.cpu
            && cmds[11].text == "RAM:" && cmds[12].text == a.fields.ram
            && cmds[13].text == "Depolama:" && cmds[14].text == a.fields.storage
            && cmds[15].text == "Sarf Malzeme:" && cmds[16].text == a.fields.consumables
            && cmds[17].text == "Seri No:" && cmds[18].text == a.fields.serialNo
    ensures cmds[19..] ==
              [ Draw(100, 510, BodySize, "Kullanici Bilgileri:"),
                Draw(LabelX, 490, BodySize, "Adi Soyadi:"),
                Draw(ValueX, 490, BodySize, a.fields.custodian),
                Draw(ReceiverX, 450, BodySize, "Teslim Alan:"),
                Draw(DelivererX, 450, BodySize, "Teslim Eden:"),
                Draw(ReceiverX, 410, BodySize, SignatureRule),
                Draw(DelivererX, 410, BodySize, SignatureRule),
                Draw(ReceiverX, 390, BodySize, "Imza"),
                Draw(DelivererX, 390, BodySize, "Imza") ]
    ensures OnPage(cmds)
  {
    name := FileName(a.fields.assetTag, today);
    var f := a.fields;
    cmds := [ Draw(100, 750, TitleSize, Title),
              Draw(100, 730, BodySize, "Zimmet Tarihi: " + f.custodyDate),
              Draw(100, 710, BodySize, "Demirbas Bilgileri:") ];
    var rows := AttributeValues(f);
    var y := FirstRowY;
    var k := 0;
    while k < |AttributeLabels|
      invariant 0 <= k <= |AttributeLabels|
      invariant y == FirstRowY - RowStep * k
      invariant |cmds| == 3 + 2 * k
      invariant cmds[0] == Draw(100, 750, TitleSize, Title)
      invariant cmds[1] == Draw(100, 730, BodySize, "Zimmet Tarihi: " + f.custodyDate)
      invariant cmds[2] == Draw(100, 710, BodySize, "Demirbas Bilgileri:")
      invariant forall m :: 0 <= m < k ==> AttributeRowAt(cmds, f, m)
      invariant OnPage(cmds)
    {
      ghost var before := cmds;
      cmds := cmds + [Draw(LabelX, y, BodySize, AttributeLabels[k]), Draw(ValueX, y, BodySize, rows[k])];
      forall m | 0 <= m < k ensures AttributeRowAt(cmds, f, m) {
        assert AttributeRowAt(before, f, m);
        assert cmds[3 + 2 * m] == before[3 + 2 * m] && cmds[4 + 2 * m] == before[4 + 2 * m];
      }
      y := y - RowStep;
      k := k + 1;
    }
    ghost var body := cmds;
    cmds := cmds +
      [ Draw(100, y - 20, BodySize, "Kullanici Bilgileri:"),
        Draw(LabelX, y - 40, BodySize, "Adi Soyadi:"),
        Draw(ValueX, y - 40, BodySize, f.custodian),
        Draw(ReceiverX, y - 80, BodySize, "Teslim Alan:"),
        Draw(DelivererX, y - 80, BodySize, "Teslim Eden:"),
        Draw(ReceiverX, y - 120, BodySize, SignatureRule),
        Draw(DelivererX, y - 120, BodySize, SignatureRule),
        Draw(ReceiverX, y - 140, BodySize, "Imza"),
        Draw(DelivererX, y - 140, BodySize, "Imza") ];
    forall m | 0 <= m < |AttributeLabels| ensures AttributeRowAt(cmds, f, m) {
      assert AttributeRowAt(body, f, m);
      assert cmds[3 + 2 * m] == body[3 + 2 * m] && cmds[4 + 2 * m] == body[4 + 2 * m];
    }
    assert AttributeRowAt(cmds, f, 0) && AttributeRowAt(cmds, f, 1) && AttributeRowAt(cmds, f, 2);
    assert AttributeRowAt(cmds, f, 3) && AttributeRowAt(cmds, f, 4) && AttributeRowAt(cmds, f, 5);
    assert AttributeRowAt(cmds, f, 6) && AttributeRowAt(cmds, f, 7);
  }
}
