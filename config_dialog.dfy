/** The settings dialog and its configuration file. The file holds section
    headers and `key=value` lines; loading reads lines until the first empty one,
    splits each line holding '=' into a key and a value after deleting its spaces,
    and puts the value into the widget the key names. Saving writes the three
    sections [normal], [bd] and [tx] from the widgets' current values. */
module Config {
  import opened Util
  import opened Text

  // ---------------------------------------------------------------------------
  // Widgets

  /** A spin box: its range and its value. */
  datatype Spin = Spin(minimum: int, maximum: int, value: int)

  /** Setting a spin box's value keeps it inside the range. */
  function SetValue(s: Spin, v: int): (r: Spin)
    ensures r.minimum == s.minimum && r.maximum == s.maximum
    ensures s.minimum <= s.maximum ==> s.minimum <= r.value <= s.maximum
    ensures s.minimum <= v <= s.maximum ==> r.value == v
  {
    s.(value := Max(s.minimum, Min(v, s.maximum)))
  }

  /** The index of the first item with exactly this text, or -1. */
  function FindText(items: seq<string>, text: string): (i: int)
    ensures -1 <= i < |items|
    ensures i >= 0 ==> items[i] == text && forall j :: 0 <= j < i ==> items[j] != text
    ensures i == -1 ==> text !in items
  {
    if items == [] then -1
    else if items[0] == text then 0
    else
      var i := FindText(items[1..], text);
      assert forall j :: 1 <= j < |items| ==> items[j] == items[1..][j - 1];
      if i == -1 then -1 else i + 1
  }

  const Int32Min := -0x8000_0000
  const Int32Max := 0x7fff_ffff

  /** A 32-bit integer read from text: an optional minus sign and decimal digits;
      anything else, or a value out of range, reads as 0. */
  function ToInt(s: string): (n: int)
    ensures Int32Min <= n <= Int32Max
  {
    match ParseDecimal(s)
    case Some(n) => if Int32Min <= n <= Int32Max then n else 0
    case None => 0
  }

  lemma ToIntDecimal(n: int)
    requires Int32Min <= n <= Int32Max
    ensures ToInt(Decimal(n)) == n
  {
    ParseDecimalRoundTrip(n);
  }

  /** The dialog's widgets: the service-provider combo box (items and selected
      index), the two spin boxes for image length and size, and the line edits
      for the two recognition services. */
  datatype Ui = Ui(
    providers: seq<string>, providerIndex: int,
    imgLength: Spin, imgSize: Spin,
    txUrl: string, txSecretId: string, txSecretKey: string,
    bdGetTokenUrl: string, bdRequestUrl: string, bdGetResultUrl: string,
    bdApiKey: string, bdSecretKey: string)

  /** The combo box's text: the selected item, or empty with no selection. */
  function CurrentText(ui: Ui): string
  {
    if 0 <= ui.providerIndex < |ui.providers| then ui.providers[ui.providerIndex] else ""
  }

  // ---------------------------------------------------------------------------
  // Keys

  datatype Key = ServiceProvider | ImgLength | ImgSize
               | TxUrl | TxSecretId | TxSecretKey
               | BdGetTokenUrl | BdRequestUrl | BdGetResultUrl | BdApiKey | BdSecretKey

  function Name(k: Key): string
  {
    match k
    case ServiceProvider => "service_provider"
    case ImgLength => "img_length"
    case ImgSize => "img_size"
    case TxUrl => "tx_url"
    case TxSecretId => "tx_secret_id"
    case TxSecretKey => "tx_secret_key"
    case BdGetTokenUrl => "bd_get_token_url"
    case BdRequestUrl => "bd_request_url"
    case BdGetResultUrl => "bd_get_result_url"
    case BdApiKey => "bd_api_key"
    case BdSecretKey => "bd_secret_key"
  }

  /** The key a name stands for, checked in the order the loader checks them. */
  function KeyOf(key: string): (r: Option<Key>)
    ensures r.Some? ==> Name(r.value) == key
  {
    if key == "service_provider" then Some(ServiceProvider)
    else if key == "img_length" then Some(ImgLength)
    else if key == "img_size" then Some(ImgSize)
    else if key == "tx_url" then Some(TxUrl)
    else if key == "tx_secret_id" then Some(TxSecretId)
    else if key == "tx_secret_key" then Some(TxSecretKey)
    else if key == "bd_get_token_url" then Some(BdGetTokenUrl)
    else if key == "bd_request_url" then Some(BdRequestUrl)
    else if key == "bd_get_result_url" then Some(BdGetResultUrl)
    else if key == "bd_api_key" then Some(BdApiKey)
    else if key == "bd_secret_key" then Some(BdSecretKey)
    else None
  }

  /** A name is recognised exactly when it is one of the keys' names. */
  lemma KeyOfName(key: string, k: Key)
    ensures KeyOf(key) == Some(k) <==> key == Name(k)
  {
    if key == Name(k) {
      match k
      case ServiceProvider =>
      case ImgLength =>
      case ImgSize =>
      case TxUrl =>
      case TxSecretId =>
      case TxSecretKey =>
      case BdGetTokenUrl =>
      case BdRequestUrl =>
      case BdGetResultUrl =>
      case BdApiKey =>
      case BdSecretKey =>
    }
  }

  /** Lowercase letters and underscores only. */
  predicate Identifier(s: string)
  {
    |s| >= 1 && forall i :: 0 <= i < |s| ==> 'a' <= s[i] <= 'z' || s[i] == '_'
  }

  /** Every key name is an identifier, so none is empty or holds a space, '=' or a
      line break. */
  lemma NamePlain(k: Key)
    ensures Identifier(Name(k))
    ensures ' ' !in Name(k) && '=' !in Name(k) && '\n' !in Name(k)
  {
    if k.ServiceProvider? || k.ImgLength? || k.ImgSize? {
      NormalNames(k);
    } else if k.TxUrl? || k.TxSecretId? || k.TxSecretKey? {
      TxNames(k);
    } else {
      BdNames(k);
    }
    IdentifierPlain(Name(k));
  }

  lemma NormalNames(k: Key)
    requires k.ServiceProvider? || k.ImgLength? || k.ImgSize?
    ensures Identifier(Name(k))
  {
  }

  lemma TxNames(k: Key)
    requires k.TxUrl? || k.TxSecretId? || k.TxSecretKey?
    ensures Identifier(Name(k))
  {
  }

  lemma BdNames(k: Key)
    requires k.BdGetTokenUrl? || k.BdRequestUrl? || k.BdGetResultUrl? || k.BdApiKey? || k.BdSecretKey?
    ensures Identifier(Name(k))
  {
  }

  lemma IdentifierPlain(s: string)
    requires Identifier(s)
    ensures ' ' !in s && '=' !in s && '\n' !in s
  {
    forall i | 0 <= i < |s| ensures s[i] != ' ' && s[i] != '=' && s[i] != '\n' {
    }
  }

  /** Puts a value into the widget a key names: the combo box selects the first
      item with that text, a spin box takes the number, a line edit the text. */
  function Set(ui: Ui, k: Key, value: string): Ui
  {
    match k
    case ServiceProvider => ui.(providerIndex := FindText(ui.providers, value))
    case ImgLength => ui.(imgLength := SetValue(ui.imgLength, ToInt(value)))
    case ImgSize => ui.(imgSize := SetValue(ui.imgSize, ToInt(value)))
    case TxUrl => ui.(txUrl := value)
    case TxSecretId => ui.(txSecretId := value)
    case TxSecretKey => ui.(txSecretKey := value)
    case BdGetTokenUrl => ui.(bdGetTokenUrl := value)
    case BdRequestUrl => ui.(bdRequestUrl := value)
    case BdGetResultUrl => ui.(bdGetResultUrl := value)
    case BdApiKey => ui.(bdApiKey := value)
    case BdSecretKey => ui.(bdSecretKey := value)
  }

  /** A second value for the same key replaces the first. */
  lemma SetOverrides(ui: Ui, k: Key, v1: string, v2: string)
    ensures Set(Set(ui, k, v1), k, v2) == Set(ui, k, v2)
  {
  }

  // ---------------------------------------------------------------------------
  // Reading a line

  /** The text with every space deleted and everything else kept in order. */
  function RemoveSpaces(s: string): (r: string)
    ensures ' ' !in r && |r| <= |s|
    ensures forall c :: c != ' ' ==> multiset(r)[c] == multiset(s)[c]
    ensures ' ' !in s ==> r == s
  {
    if s == [] then []
    else
      var r := RemoveSpaces(s[..|s| - 1]);
      assert s == s[..|s| - 1] + [s[|s| - 1]];
      if s[|s| - 1] == ' ' then r else r + [s[|s| - 1]]
  }

  /** Splits a line holding '=' after deleting its spaces: the key is the text
      before the first '=', and the value is all of the text after it, later '='
      characters included. */
  function SplitKeyValue(line: string): (kv: (string, string))
    requires '=' in line
    ensures var t := RemoveSpaces(line);
      '=' in t && kv.0 == t[..IndexOf(t, '=')] && kv.1 == t[IndexOf(t, '=') + 1..]
    ensures '=' !in kv.0 && ' ' !in kv.0 && ' ' !in kv.1
  {
    var t := RemoveSpaces(line);
    assert multiset(t)['='] == multiset(line)['='] > 0;
    var ls := Split(t, '=');
    var k := IndexOf(t, '=');
    assert ls[1..] == Split(t[k + 1..], '=');
    JoinSplit(t[k + 1..], '=');
    assert forall c :: c in t[k + 1..] ==> c in t;
    (ls[0], Join(ls[1..], '='))
  }

  /** One line: a line holding '=' whose key is recognised updates that key's
      widget; any other line changes nothing. */
  function ApplyLine(ui: Ui, line: string): Ui
  {
    if '=' in line then
      var (key, value) := SplitKeyValue(line);
      match KeyOf(key)
      case Some(k) => Set(ui, k, value)
      case None => ui
    else ui
  }

  /** Lines are read until the first empty one. */
  function Load(ui: Ui, lines: seq<string>): Ui
    decreases |lines|
  {
    if lines == [] || lines[0] == "" then ui else Load(ApplyLine(ui, lines[0]), lines[1..])
  }

  /** Lines after the first empty line have no effect. */
  lemma {:induction false} LoadStopsAtEmpty(ui: Ui, a: seq<string>, b: seq<string>)
    ensures Load(ui, a + [""] + b) == Load(ui, a)
    decreases |a|
  {
    if a == [] {
      assert (a + [""] + b)[0] == "";
    } else if a[0] != "" {
      assert (a + [""] + b)[1..] == a[1..] + [""] + b;
      LoadStopsAtEmpty(ApplyLine(ui, a[0]), a[1..], b);
    }
  }

  /** Loading lines that hold no empty line, then more lines, is loading the
      first lines and then the rest. */
  lemma {:induction false} LoadAppend(ui: Ui, a: seq<string>, b: seq<string>)
    requires "" !in a
    ensures Load(ui, a + b) == Load(Load(ui, a), b)
    decreases |a|
  {
    if a == [] {
      assert a + b == b;
    } else {
      assert a[0] in a;
      var next := ApplyLine(ui, a[0]);
      assert (a + b)[0] == a[0] != "";
      assert (a + b)[1..] == a[1..] + b;
      assert Load(ui, a + b) == Load(next, a[1..] + b);
      assert Load(ui, a) == Load(next, a[1..]);
      assert forall x :: x in a[1..] ==> x in a;
      LoadAppend(next, a[1..], b);
    }
  }

  /** A line without '=', such as a section header, changes nothing. */
  lemma HeaderLine(ui: Ui, line: string)
    requires '=' !in line
    ensures ApplyLine(ui, line) == ui
  {
  }

  // ---------------------------------------------------------------------------
  // Writing the file

  function KeyLine(k: Key, value: string): string
  {
    Name(k) + "=" + value
  }

  function NormalSection(ui: Ui): seq<string>
  {
    ["[normal]",
     KeyLine(ServiceProvider, CurrentText(ui)),
     KeyLine(ImgLength, Decimal(ui.imgLength.value)),
     KeyLine(ImgSize, Decimal(ui.imgSize.value))]
  }

  function BdSection(ui: Ui): seq<string>
  {
    ["[bd]",
     KeyLine(BdGetTokenUrl, ui.bdGetTokenUrl),
     KeyLine(BdRequestUrl, ui.bdRequestUrl),
     KeyLine(BdGetResultUrl, ui.bdGetResultUrl),
     KeyLine(BdApiKey, ui.bdApiKey),
     KeyLine(BdSecretKey, ui.bdSecretKey)]
  }

  function TxSection(ui: Ui): seq<string>
  {
    ["[tx]",
     KeyLine(TxUrl, ui.txUrl),
     KeyLine(TxSecretId, ui.txSecretId),
     KeyLine(TxSecretKey, ui.txSecretKey)]
  }

  /** The lines of the saved file, in the order they are written. */
  function ConfigLines(ui: Ui): seq<string>
  {
    NormalSection(ui) + BdSection(ui) + TxSection(ui)
  }

  /** The saved file: every line followed by a line break. */
  function ConfigFile(ui: Ui): string
  {
    Terminated(ConfigLines(ui), '\n')
  }

  /** Free of spaces and line breaks. */
  predicate Plain(s: string)
  {
    ' ' !in s && '\n' !in s
  }

  /** Every text the file is written from is free of spaces and line breaks. */
  predicate PlainValues(ui: Ui)
  {
    && Plain(CurrentText(ui)) && Plain(ui.txUrl) && Plain(ui.txSecretId) && Plain(ui.txSecretKey)
    && Plain(ui.bdGetTokenUrl) && Plain(ui.bdRequestUrl) && Plain(ui.bdGetResultUrl)
    && Plain(ui.bdApiKey) && Plain(ui.bdSecretKey)
  }

  /** Decimal text holds neither spaces nor line breaks. */
  lemma DecimalPlain(n: int)
    ensures Plain(Decimal(n))
  {
    var d := Decimal(n);
    forall i | 0 <= i < |d| ensures d[i] != ' ' && d[i] != '\n' {
    }
  }

  /** A line holds no line break when none of its pieces does. */
  predicate NoBreaks(ls: seq<string>)
  {
    forall i :: 0 <= i < |ls| ==> '\n' !in ls[i]
  }

  /** A written line is free of spaces and line breaks when its value is. */
  lemma KeyLinePlain(k: Key, v: string)
    requires Plain(v)
    ensures Plain(KeyLine(k, v))
  {
    NamePlain(k);
  }

  /** A written line splits into its key's name and its value. */
  lemma KeyLineSplits(k: Key, v: string)
    requires ' ' !in v
    ensures '=' in KeyLine(k, v) && SplitKeyValue(KeyLine(k, v)) == (Name(k), v)
  {
    var line := KeyLine(k, v);
    KeyLineEquals(k, v);
    NamePlain(k);
    assert ' ' !in line;
    assert RemoveSpaces(line) == line;
  }

  /** The first '=' of a written line follows the key's name. */
  lemma KeyLineEquals(k: Key, v: string)
    ensures '=' in KeyLine(k, v) && IndexOf(KeyLine(k, v), '=') == |Name(k)|
    ensures KeyLine(k, v)[..|Name(k)|] == Name(k) && KeyLine(k, v)[|Name(k)| + 1..] == v
  {
    var line := KeyLine(k, v);
    var n := |Name(k)|;
    NamePlain(k);
    assert line[n] == '=';
    assert line[..n] == Name(k);
    var i := IndexOf(line, '=');
    assert line[..i + 1][i] == '=';
    assert line[..n + 1][n] == '=';
  }

  /** A written line read back sets its key to its value, provided the value holds
      no space. */
  lemma LineSets(ui: Ui, k: Key, v: string)
    requires ' ' !in v
    ensures ApplyLine(ui, KeyLine(k, v)) == Set(ui, k, v)
  {
    KeyLineSplits(k, v);
    KeyOfName(Name(k), k);
  }

  /** Loading a non-empty first line applies it, then loads the rest. */
  lemma LoadCons(ui: Ui, line: string, rest: seq<string>)
    requires line != ""
    ensures Load(ui, [line] + rest) == Load(ApplyLine(ui, line), rest)
  {
    assert ([line] + rest)[1..] == rest;
  }

  /** With no line break in any value, the saved file splits into its lines and a
      final empty piece after the last line break. */
  lemma ConfigFileLines(ui: Ui)
    requires PlainValues(ui)
    ensures Split(ConfigFile(ui), '\n') == ConfigLines(ui) + [""]
  {
    var ls := ConfigLines(ui);
    TerminatedJoin(ls, '\n');
    JoinSnoc(ls, "", '\n');
    assert Join(ls + [""], '\n') == ConfigFile(ui);
    DecimalPlain(ui.imgLength.value);
    DecimalPlain(ui.imgSize.value);
    SectionsPlain(ui);
    assert ls + [""] == NormalSection(ui) + BdSection(ui) + TxSection(ui) + [""];
    assert NoBreaks(ls + [""]);
    SplitJoin(ls + [""], '\n');
  }

  lemma SectionsPlain(ui: Ui)
    requires PlainValues(ui)
    ensures NoBreaks(NormalSection(ui)) && NoBreaks(BdSection(ui)) && NoBreaks(TxSection(ui))
  {
    NormalPlain(ui);
    BdPlain(ui);
    TxPlain(ui);
  }

  lemma NormalPlain(ui: Ui)
    requires PlainValues(ui)
    ensures NoBreaks(NormalSection(ui))
  {
    DecimalPlain(ui.imgLength.value);
    DecimalPlain(ui.imgSize.value);
    KeyLinePlain(ServiceProvider, CurrentText(ui));
    KeyLinePlain(ImgLength, Decimal(ui.imgLength.value));
    KeyLinePlain(ImgSize, Decimal(ui.imgSize.value));
  }

  lemma BdPlain(ui: Ui)
    requires PlainValues(ui)
    ensures NoBreaks(BdSection(ui))
  {
    KeyLinePlain(BdGetTokenUrl, ui.bdGetTokenUrl);
    KeyLinePlain(BdRequestUrl, ui.bdRequestUrl);
    KeyLinePlain(BdGetResultUrl, ui.bdGetResultUrl);
    KeyLinePlain(BdApiKey, ui.bdApiKey);
    KeyLinePlain(BdSecretKey, ui.bdSecretKey);
  }

  lemma TxPlain(ui: Ui)
    requires PlainValues(ui)
    ensures NoBreaks(TxSection(ui))
  {
    KeyLinePlain(TxUrl, ui.txUrl);
    KeyLinePlain(TxSecretId, ui.txSecretId);
    KeyLinePlain(TxSecretKey, ui.txSecretKey);
  }

  /** What loading a saved file leaves in a dialog `u`: the combo box selects the
      first item with the saved text, the spin boxes take the saved numbers inside
      their own ranges, and the line edits take the saved texts. */
  function Reloaded(u: Ui, saved: Ui): Ui
  {
    u.(providerIndex := FindText(u.providers, CurrentText(saved)),
       imgLength := SetValue(u.imgLength, saved.imgLength.value),
       imgSize := SetValue(u.imgSize, saved.imgSize.value),
       txUrl := saved.txUrl, txSecretId := saved.txSecretId, txSecretKey := saved.txSecretKey,
       bdGetTokenUrl := saved.bdGetTokenUrl, bdRequestUrl := saved.bdRequestUrl,
       bdGetResultUrl := saved.bdGetResultUrl, bdApiKey := saved.bdApiKey, bdSecretKey := saved.bdSecretKey)
  }

  /** Spin values are 32-bit, as the widgets hold them. */
  predicate SpinValuesInt32(ui: Ui)
  {
    Int32Min <= ui.imgLength.value <= Int32Max && Int32Min <= ui.imgSize.value <= Int32Max
  }

  /** The section headers are non-empty and hold no '='. */
  lemma HeadersPlain()
    ensures '=' !in "[normal]" && '=' !in "[bd]" && '=' !in "[tx]"
  {
  }

  lemma LoadNormal(u: Ui, saved: Ui)
    requires PlainValues(saved) && SpinValuesInt32(saved)
    ensures Load(u, NormalSection(saved)) ==
      u.(providerIndex := FindText(u.providers, CurrentText(saved)),
         imgLength := SetValue(u.imgLength, saved.imgLength.value),
         imgSize := SetValue(u.imgSize, saved.imgSize.value))
  {
    var provider, length, size := CurrentText(saved), Decimal(saved.imgLength.value), Decimal(saved.imgSize.value);
    var l1, l2, l3 := KeyLine(ServiceProvider, provider), KeyLine(ImgLength, length), KeyLine(ImgSize, size);
    DecimalPlain(saved.imgLength.value);
    DecimalPlain(saved.imgSize.value);
    ToIntDecimal(saved.imgLength.value);
    ToIntDecimal(saved.imgSize.value);
    assert NormalSection(saved) == ["[normal]"] + ([l1] + ([l2] + ([l3] + [])));
    LoadCons(u, "[normal]", [l1] + ([l2] + ([l3] + [])));
    HeadersPlain();
    HeaderLine(u, "[normal]");
    var u1 := Set(u, ServiceProvider, provider);
    LineSets(u, ServiceProvider, provider);
    LoadCons(u, l1, [l2] + ([l3] + []));
    var u2 := Set(u1, ImgLength, length);
    LineSets(u1, ImgLength, length);
    LoadCons(u1, l2, [l3] + []);
    LineSets(u2, ImgSize, size);
    LoadCons(u2, l3, []);
  }

  lemma LoadBd(u: Ui, saved: Ui)
    requires PlainValues(saved)
    ensures Load(u, BdSection(saved)) ==
      u.(bdGetTokenUrl := saved.bdGetTokenUrl, bdRequestUrl := saved.bdRequestUrl,
         bdGetResultUrl := saved.bdGetResultUrl, bdApiKey := saved.bdApiKey, bdSecretKey := saved.bdSecretKey)
  {
    var l1, l2, l3 := KeyLine(BdGetTokenUrl, saved.bdGetTokenUrl), KeyLine(BdRequestUrl, saved.bdRequestUrl), KeyLine(BdGetResultUrl, saved.bdGetResultUrl);
    var l4, l5 := KeyLine(BdApiKey, saved.bdApiKey), KeyLine(BdSecretKey, saved.bdSecretKey);
    assert BdSection(saved) == ["[bd]"] + ([l1] + ([l2] + ([l3] + ([l4] + ([l5] + [])))));
    LoadCons(u, "[bd]", [l1] + ([l2] + ([l3] + ([l4] + ([l5] + [])))));
    HeadersPlain();
    HeaderLine(u, "[bd]");
    var u1 := Set(u, BdGetTokenUrl, saved.bdGetTokenUrl);
    LineSets(u, BdGetTokenUrl, saved.bdGetTokenUrl);
    LoadCons(u, l1, [l2] + ([l3] + ([l4] + ([l5] + []))));
    var u2 := Set(u1, BdRequestUrl, saved.bdRequestUrl);
    LineSets(u1, BdRequestUrl, saved.bdRequestUrl);
    LoadCons(u1, l2, [l3] + ([l4] + ([l5] + [])));
    var u3 := Set(u2, BdGetResultUrl, saved.bdGetResultUrl);
    LineSets(u2, BdGetResultUrl, saved.bdGetResultUrl);
    LoadCons(u2, l3, [l4] + ([l5] + []));
    var u4 := Set(u3, BdApiKey, saved.bdApiKey);
    LineSets(u3, BdApiKey, saved.bdApiKey);
    LoadCons(u3, l4, [l5] + []);
    LineSets(u4, BdSecretKey, saved.bdSecretKey);
    LoadCons(u4, l5, []);
  }

  lemma LoadTx(u: Ui, saved: Ui)
    requires PlainValues(saved)
    ensures Load(u, TxSection(saved)) ==
      u.(txUrl := saved.txUrl, txSecretId := saved.txSecretId, txSecretKey := saved.txSecretKey)
  {
    var l1, l2, l3 := KeyLine(TxUrl, saved.txUrl), KeyLine(TxSecretId, saved.txSecretId), KeyLine(TxSecretKey, saved.txSecretKey);
    assert TxSection(saved) == ["[tx]"] + ([l1] + ([l2] + ([l3] + [])));
    LoadCons(u, "[tx]", [l1] + ([l2] + ([l3] + [])));
    HeadersPlain();
    HeaderLine(u, "[tx]");
    var u1 := Set(u, TxUrl, saved.txUrl);
    LineSets(u, TxUrl, saved.txUrl);
    LoadCons(u, l1, [l2] + ([l3] + []));
    var u2 := Set(u1, TxSecretId, saved.txSecretId);
    LineSets(u1, TxSecretId, saved.txSecretId);
    LoadCons(u1, l2, [l3] + []);
    LineSets(u2, TxSecretKey, saved.txSecretKey);
    LoadCons(u2, l3, []);
  }

  /** No written line is empty. */
  lemma SectionsFilled(ui: Ui)
    ensures "" !in NormalSection(ui) && "" !in BdSection(ui) && "" !in NormalSection(ui) + BdSection(ui)
  {
    forall k: Key, v: string ensures |KeyLine(k, v)| >= 1 {
    }
  }

  /** Loading a saved file into any dialog restores every saved text, provided no
      text holds a space or a line break; the numbers and the combo selection are
      restored as far as the dialog's own ranges and items allow. */
  lemma SaveThenLoad(u: Ui, saved: Ui)
    requires PlainValues(saved) && SpinValuesInt32(saved)
    ensures Load(u, Split(ConfigFile(saved), '\n')) == Reloaded(u, saved)
  {
    var n, b, t := NormalSection(saved), BdSection(saved), TxSection(saved);
    ConfigFileLines(saved);
    LoadStopsAtEmpty(u, n + b + t, []);
    assert n + b + t + [""] + [] == Split(ConfigFile(saved), '\n');
    HeadersPlain();
    SectionsFilled(saved);
    LoadAppend(u, n + b, t);
    LoadAppend(u, n, b);
    LoadNormal(u, saved);
    var u1 := Load(u, n);
    LoadBd(u1, saved);
    LoadTx(Load(u1, b), saved);
  }

  /** A dialog whose spin values lie in their ranges and whose combo box selects
      the first item with its text reads back exactly the file it saved. */
  lemma SaveThenLoadSame(ui: Ui)
    requires PlainValues(ui) && SpinValuesInt32(ui)
    requires ui.imgLength.minimum <= ui.imgLength.value <= ui.imgLength.maximum
    requires ui.imgSize.minimum <= ui.imgSize.value <= ui.imgSize.maximum
    requires FindText(ui.providers, CurrentText(ui)) == ui.providerIndex
    ensures Load(ui, Split(ConfigFile(ui), '\n')) == ui
  {
    SaveThenLoad(ui, ui);
  }

  // ---------------------------------------------------------------------------
  // The dialog

  class ConfigDialog {
    var ui: Ui

    constructor(ui: Ui)
      ensures this.ui == ui
    {
      this.ui := ui;
    }

    /** Reads the file's lines until the first empty one and applies each; a
        missing or unreadable file (`None`) changes nothing. */
    method LoadConfig(file: Option<string>)
      modifies this
      ensures ui == if file.None? then old(ui) else Load(old(ui), Split(file.value, '\n'))
    {
      if file.None? {
        return;
      }
      var lines := Split(file.value, '\n');
      var i := 0;
      while i < |lines| && lines[i] != ""
        invariant 0 <= i <= |lines|
        invariant Load(old(ui), lines) == Load(ui, lines[i..])
      {
        assert lines[i..][1..] == lines[i + 1..];
        ui := ApplyLine(ui, lines[i]);
        i := i + 1;
      }
    }
  }
}
