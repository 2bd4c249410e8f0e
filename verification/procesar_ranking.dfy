/**
 * Cleaning, h-index threshold, discipline classification, Scholar-ID lookup and
 * final ranking of the OpenAlex researcher table (`procesar_ranking.py`).
 */
module ProcesarRanking {
  import opened Wrappers
  import opened Text
  import opened Seqs

  /** Only researchers with at least this h-index are ranked. */
  const H_INDEX_MINIMO: int := 1

  /** Researchers OpenAlex wrongly places in Chile. */
  const EXCLUIR_NOMBRES: seq<string> := [
        "Arend Lijphart",
        "Alain Touraine",
        "Max Weber",
        "Harold H. Joachim",
        "Marisa Bucheli",
        "Andrea Vigorito",
        "Adolfo Garc\U{E9}",
        "Liliana de Riz",
        "Guillermo Dur\U{E1}n",
        "Ricardo Paes de Barros",
        "Travis Gagie",
        "Diana Fletschner",
        "Diana Kr\U{FC}ger",
        "Jos\U{E9} Gabriel Palma",
        "Fernando Guti\U{E9}rrez Hidalgo",
        "Pablo A. Miranda",
        "W.G.P. Kumari",
        "Stefano Novellani",
        "J. Arz\U{FA}a",
        "Fernando Alonso",
        "Pablo Gonz\U{E1}lez",
        "Carola Bl\U{E1}zquez",
        "Ant\U{F4}nio Galv\U{E3}o Novaes",
        "Juan M. Corchado"
  ]

  /** Affiliations that are not real Chilean institutions. */
  const EXCLUIR_AFILIACIONES: seq<string> := [
        "Gobierno de Chile",
        "Partnership for Economic Policy",
        "World Bank Group",
        "World Health Organization",
        "University of Cambridge",
        "Vellore Institute of Technology",
        "University of Wollongong",
        "McGill University",
        "Dalhousie University",
        "IFP \U{C9}nergies nouvelles",
        "Universitat de Barcelona",
        "Universidad Complutense de Madrid",
        "Universidad de Buenos Aires",
        "Universidade de Vigo",
        "Hospital Universitario de Canarias",
        "Universidad de la Rep\U{FA}blica"
  ]

  /** Main fields that are not social sciences. */
  const CAMPOS_EXCLUIR: seq<string> := [
        "Computer Science",
        "Engineering",
        "Mathematics",
        "Physics and Astronomy",
        "Environmental Science",
        "Medicine",
        "Neuroscience"
  ]

  /** Manually verified Google Scholar ids. Later duplicate keys repeat the same value. */
  const SCHOLAR_IDS_CONOCIDOS: map<string, string> := map[
        "David Altman" := "oZGkFZoAAAAJ",
        "Dar\U{ED}o P\U{E1}ez" := "KVva2AIAAAAJ",
        "Francisca Fari\U{F1}a Rivera" := "4JpTKi0AAAAJ",
        "Salvador Chac\U{F3}n Moscoso" := "LeQUGDIAAAAJ",
        "Miguel Alfaro" := "0zwnLpAAAAAJ",
        "Juan-Carlos Ferrer" := "1N8BNr8AAAAJ",
        "Juan\U{2010}Carlos Ferrer" := "1N8BNr8AAAAJ",
        "Crist\U{F3}bal Rovira Kaltwasser" := "RdXwR1EAAAAJ",
        "Alejandro Micco" := "BUc-k1MAAAAJ",
        "Claudio E. Montenegro" := "qO3kU6UAAAAJ",
        "Patricio Navia" := "IBcs-ZwAAAAJ",
        "Jos\U{E9} Joaqu\U{ED}n Brunner" := "TX3te0QAAAAJ",
        "Alejandra Mizala" := "zmkA7uwAAAAJ",
        "Daniel Chernilo" := "QASCP9kAAAAJ",
        "Vicente Sisto" := "g_QWxVAAAAAJ",
        "Paula Ascorra" := "YVBJgLwAAAAJ",
        "Aldo Mascare\U{F1}o" := "7H4k-70AAAAJ",
        "Mah\U{ED}a Saracostti" := "pWZjC4AAAAAJ",
        "Juan Carlos Castillo" := "CPJ0qfQAAAAJ",
        "Nicol\U{E1}s M. Somma" := "yyr6ge0AAAAJ",
        "Crist\U{F3}bal Villalobos" := "PM99kxMAAAAJ",
        "Mauricio Morales" := "BPVbhToAAAAJ",
        "Javier N\U{FA}\U{F1}ez" := "2a__7xUAAAAJ",
        "Aldo Madariaga" := "n0UQqa4AAAAJ",
        "Jenny Assa\U{E9}l" := "4bK5XUQAAAAJ",
        "Cristi\U{E1}n Parker Gumucio" := "8kIJIa4AAAAJ",
        "Cynthia Duk" := "bxBuLfMAAAAJ",
        "Nicole Jenne" := "HaX6qs4AAAAJ",
        "Kathya Araujo" := "nukHXv0AAAAJ",
        "Antonio Stecher" := "rFUqIdsAAAAJ",
        "Felipe Link" := "9cxoZ8MAAAAJ",
        "Cristi\U{E1}n Cox" := "9b8DoS8AAAAJ",
        "Anah\U{ED} Urquiza" := "eU41CdMAAAAJ",
        "Luis Quezada" := "rVVdDTMAAAAJ",
        "Felipe Gonz\U{E1}lez" := "dwxwyqwAAAAJ",
        "Elizabeth Lira" := "VDEOCBgAAAAJ",
        "Mar\U{ED}a Luisa M\U{E9}ndez" := "DCQO_AgAAAAJ",
        "Antoine Maillet" := "Y4q4OfoAAAAJ",
        "Rossana Castiglioni" := "gkHNPiwAAAAJ",
        "Modesto Gayo" := "k-2PLOsAAAAJ",
        "Alejandra Falabella" := "G-JkMjwAAAAJ",
        "Vicente Espinoza" := "L8DtBnQAAAAJ",
        "Caterine Galaz Valderrama" := "iBW6M4gAAAAJ",
        "Mauricio L\U{F3}pez" := "nWzmqycAAAAJ",
        "Esteban Puentes" := "zhJ_wAUAAAAJ",
        "Jos\U{E9} Tessada" := "i3T7_ocAAAAJ",
        "Marcela Aracena" := "kT-y4RgAAAAJ",
        "Nicol\U{E1}s Didier" := "rDyVn7QAAAAJ",
        "Eduardo Restrepo" := "G51Wqn0AAAAJ",
        "H\U{E9}ctor L\U{F3}pez-Ospina" := "e_0UrIMAAAAJ",
        "Iskra P\U{E1}vez Soto" := "PZWoraMAAAAJ",
        "Jaime Miranda" := "wd06koYAAAAJ",
        "Mat\U{ED}as Berthelon" := "8nUNv-QAAAAJ",
        "Pedro Palominos" := "Q81kXv4AAAAJ",
        "Alejandro Corval\U{E1}n" := "KiGpYt4AAAAJ",
        "Ricardo A. Ayala" := "p4WjxQoAAAAJ",
        "Juan Diego Garc\U{ED}a-Castro" := "o_ReskMAAAAJ",
        "Juan Diego Garc\U{ED}a\U{2010}Castro" := "o_ReskMAAAAJ",
        "Mar\U{ED}a Cristina Riff" := "V9BgXgMAAAAJ",
        "H\U{E9}ctor Opazo Carvajal" := "gdu2HV8AAAAJ",
        "Luis Maldonado" := "jw0bvrYAAAAJ",
        "Ver\U{F3}nica G\U{F3}mez Urrutia" := "HEFa7TgAAAAJ",
        "Carlos Rodr\U{ED}guez Garc\U{E9}s" := "PQix8vkAAAAJ",
        "Carmen Gloria N\U{FA}\U{F1}ez" := "3DJ2obYAAAAJ",
        "Valeria Herrera Fern\U{E1}ndez" := "KpR_9ssAAAAJ",
        "Alexandre Janiak" := "ZUI_nRsAAAAJ",
        "Francisco Pino" := "gglIsfcAAAAJ",
        "Martina Yopo D\U{ED}az" := "d_EShyMAAAAJ",
        "Manuela Garc\U{ED}a Quiroga" := "YphStrYAAAAJ",
        "Carmen Le Foulon" := "wRPMNvUAAAAJ",
        "Carlos Villalobos Barr\U{ED}a" := "ys7_WJsAAAAJ",
        "Alexander Panez Pinto" := "j0jLMmUAAAAJ",
        "Francisco Soto" := "bQFVXJIAAAAJ",
        "Felipe Ag\U{FC}ero" := "JSPWdfYAAAAJ",
        "Juan Carlos Pe\U{F1}a Axt" := "M1HHaLAAAAAJ",
        "Lyonel Lauli\U{E9}" := "YrUlat4AAAAJ",
        "Mar\U{ED}a Emilia Tijoux" := "w4yfwDwAAAAJ",
        "Macarena Trujillo Cristoffanini" := "WUBNh6cAAAAJ",
        "Gianinna Mu\U{F1}oz Arce" := "69DPxiIAAAAJ",
        "Crist\U{F3}bal Villalobos Dintrans" := "2Luja0YAAAAJ",
        "Alicia Salomone" := "dt0d5aYAAAAJ",
        "Jeanne W. Simon" := "_mHLvikAAAAJ",
        "Pablo Camus" := "__gOnGQAAAAJ",
        "Taly Reininger" := "s-2CFoYAAAAJ",
        "Rodrigo Medel Sierralta" := "nYgItkMAAAAJ",
        "Rodrigo M. Medel" := "nYgItkMAAAAJ",
        "Mar\U{ED}a Teresa Rojas Fabris" := "FJPZ-FMAAAAJ",
        "Pamela Soto Garc\U{ED}a" := "LHY0duUAAAAJ",
        "Carlos Dur\U{E1}n Migliardi" := "B4nKyykAAAAJ",
        "Lorena P\U{E9}rez-Roa" := "6fbnHhQAAAAJ",
        "Nelson Arellano Escudero" := "feRyeYcAAAAJ",
        "Rodrigo A. As\U{FA}n" := "airlFmQAAAAJ",
        "Rodrigo As\U{FA}n" := "airlFmQAAAAJ",
        "Camila Moyano D\U{E1}vila" := "Z_5xEkIAAAAJ",
        "Claudia Z\U{FA}\U{F1}iga" := "PrpjOXQAAAAJ",
        "Javiera Cienfuegos Illanes" := "VZBKOLsAAAAJ",
        "Cristi\U{E1}n Bellei" := "UeodjIAAAAAJ",
        "Cristian Bellei" := "UeodjIAAAAAJ",
        "Mauro Basaure" := "JPWSU2wAAAAJ",
        "Carolina Stefoni" := "p86gQo0AAAAJ",
        "Silvia Lamadrid Alvarez" := "t6B1cxEAAAAJ",
        "Silvia Lamadrid" := "t6B1cxEAAAAJ",
        "Javier Ruiz-Tagle" := "os329F8AAAAJ",
        "Oscar Landerretche" := "W6oI2LsAAAAJ",
        "Gonzalo Martner" := "7OcQ0PoAAAAJ",
        "Eduardo Engel" := "PWLh77oAAAAJ",
        "Pablo Marshall" := "HzOFxjoAAAAJ",
        "Pablo Geraldo Bast\U{ED}as" := "JrrvH-oAAAAJ",
        "Andrea Riedemann" := "KnrUWzEAAAAJ",
        "Pablo P\U{E9}rez Ahumada" := "I-bh4HoAAAAJ",
        "Kathya Araujo" := "nukHXv0AAAAJ",
        "Fernando Atria" := "InrV7oEAAAAJ",
        "Mart\U{ED}n Tironi" := "_CTu_voAAAAJ",
        "Tom\U{E1}s Arizt\U{ED}a" := "FpyJ96kAAAAJ",
        "Eugenio Tironi" := "8g7eKDcAAAAJ",
        "Claudia Sanhueza" := "kuProYAAAAAJ",
        "Dante Contreras" := "BUc-k1MAAAAJ",
        "Carlos Huneeus" := "Kq4dWnoAAAAJ",
        "Juan Pablo Luna" := "IgwSc8oAAAAJ",
        "Florencia Torche" := "HjhELVoAAAAJ",
        "Rodrigo Vald\U{E9}s" := "vfhPXR4AAAAJ",
        "Andrea Repetto" := "zmkA7uwAAAAJ",
        "Sergio Urz\U{FA}a" := "UGlSd5kAAAAJ",
        "Francisco A. Gallego" := "l7Q0SrUAAAAJ",
        "Francisco Gallego" := "l7Q0SrUAAAAJ",
        "Jos\U{E9} De Gregorio" := "SJUEA8uk4iYC",
        "Claudia Mora" := "psDDX5MAAAAJ",
        "Juan Carlos Oyanedel" := "UsXLvsEAAAAJ",
        "Ernesto L\U{F3}pez-Morales" := "5w40_sYAAAAJ",
        "Ernesto L\U{F3}pez Morales" := "5w40_sYAAAAJ",
        "Luis Garrido-Vergara" := "DlO0jXVS4FIC",
        "Luis Garrido Vergara" := "DlO0jXVS4FIC",
        "Jos\U{E9} Weinstein" := "XrZEaYcAAAAJ",
        "Gonzalo Mu\U{F1}oz Stuardo" := "rC7E0W8AAAAJ",
        "Sergio Martinic" := "P3vUyD8AAAAJ",
        "Osvaldo Sunkel" := "GEuJF0cAAAAJ",
        "Aldo Mascare\U{F1}o" := "7H4k-70AAAAJ",
        "Arturo Arriagada" := "TzPYdWsAAAAJ",
        "Jos\U{E9} Joaqu\U{ED}n Brunner" := "TX3te0QAAAAJ",
        "Pedro G\U{FC}ell" := "KaRIsccAAAAJ",
        "Mat\U{ED}as Bargsted" := "0oYjLYEAAAAJ",
        "Alfredo Joignant" := "C6i7344AAAAJ",
        "Emmanuelle Barozet" := "NLiNCD0AAAAJ",
        "\U{C9}mmanuelle Barozet" := "NLiNCD0AAAAJ",
        "Sergio Toro" := "F7Dguu4AAAAJ",
        "Ricardo Gamboa" := "nOBjxWUAAAAJ",
        "Ricardo Gamboa Valenzuela" := "nOBjxWUAAAAJ",
        "Claudio Fuentes" := "ckIjzZQAAAAJ",
        "Magdalena Salda\U{F1}a" := "UknWOrEAAAAJ",
        "Catherine Reyes-Housholder" := "8WfwsloAAAAJ",
        "Octavio Avenda\U{F1}o" := "gj1MwGwAAAAJ",
        "Lisa Zanotti" := "JD_X4KYAAAAJ",
        "Carla Fardella" := "h9ECWD4AAAAJ",
        "Manuel Canales Cer\U{F3}n" := "VUBBRpoAAAAJ",
        "Manuel Canales" := "VUBBRpoAAAAJ",
        "F. Daniel Hidalgo" := "r-UN7tMAAAAJ",
        "Marcelo Arnold-Cathalifaud" := "0eZSQEkAAAAJ",
        "Marcelo Arnold" := "0eZSQEkAAAAJ",
        "Rodrigo Cordero" := "22ynv5cAAAAJ",
        "Jorge Atria Curi" := "6lYgX_0AAAAJ",
        "Jorge Atria" := "6lYgX_0AAAAJ",
        "Antonio Elizalde" := "egxxLU0AAAAJ",
        "Matias L\U{F3}pez" := "_y8jWtcAAAAJ",
        "Ver\U{F3}nica Gubbins Foxley" := "tW__CQYAAAAJ",
        "Ver\U{F3}nica Gubbins" := "tW__CQYAAAAJ",
        "Felipe Torres Torres" := "8bXFNDIAAAAJ",
        "Felipe Torres" := "8bXFNDIAAAAJ",
        "Francisca Dussaillant" := "6XHFLYQAAAAJ",
        "\U{D3}scar Mac-Clure" := "XmHLcYkAAAAJ",
        "Oscar Mac-Clure" := "XmHLcYkAAAAJ",
        "Carlos Calvo Mu\U{F1}oz" := "Sc7FKWEAAAAJ",
        "Carlos Calvo" := "Sc7FKWEAAAAJ",
        "\U{C1}lvaro Besoa\U{ED}n Salda\U{F1}a" := "zt_Pe8wAAAAJ",
        "Alvaro Besoain Salda\U{F1}a" := "zt_Pe8wAAAAJ",
        "Facundo Sep\U{FA}lveda" := "8yeHoG8AAAAJ",
        "Facundo Sepulveda" := "8yeHoG8AAAAJ",
        "C\U{E9}sar A. Cisneros Puebla" := "k7EIK5UAAAAJ",
        "C\U{E9}sar Cisneros Puebla" := "k7EIK5UAAAAJ",
        "Daina Bellido de Luna" := "LqFe6MQAAAAJ",
        "Juan Pablo Venables" := "OQM9rGQAAAAJ",
        "Juan Pablo Paredes P" := "keKcSfsAAAAJ",
        "Juan Pablo Paredes" := "keKcSfsAAAAJ",
        "Juan Pablo Pinilla" := "HsctFRkAAAAJ",
        "Kenneth Bunker" := "kFHaW6wAAAAJ",
        "\U{C1}lvaro V. Ram\U{ED}rez-Alujas" := "MMCj-VQAAAAJ",
        "\U{C1}lvaro Ram\U{ED}rez-Alujas" := "MMCj-VQAAAAJ",
        "Daniel Miranda" := "vdF2kZcAAAAJ",
        "Rodrigo Mardones" := "5cAowpkAAAAJ"
  ]

  // ---------------------------------------------------------------- loading

  /**
   * One row of the OpenAlex table. Columns no step reads are not modelled; `pais` and
   * `paisInstitucion` hold the columns of those names, and `citas` the citation count
   * under either of its names.
   */
  datatype Row = Row(
    nombre: string,
    institucion: string,
    campoPrincipal: string,
    paisInstitucion: string,
    pais: string,
    hIndex: int,
    citas: int,
    topics: string,
    openalexId: string,
    orcid: string)

  /** A table: its column names (after loading) and its rows. */
  datatype Frame = Frame(columns: seq<string>, rows: seq<Row>)

  /** The column renaming of `cargar_datos`. */
  function RenameColumn(c: string): string
  {
    if c == "cited_by_count" then "citas"
    else if c == "pais" then "pais_institucion"
    else c
  }

  /**
   * The column names after `cargar_datos`: the two old names are renamed, every other
   * column is kept, and a `citas` column exists afterwards.
   */
  function CargarColumnas(cols: seq<string>): (r: seq<string>)
    ensures "citas" in r
    ensures "cited_by_count" !in r && "pais" !in r
    ensures "pais_institucion" in r <==> ("pais" in cols || "pais_institucion" in cols)
    ensures forall c :: c in cols && c != "pais" && c != "cited_by_count" ==> c in r
    ensures forall c :: c in r ==> c == "citas" || c == "pais_institucion" || c in cols
  {
    var renamed := seq(|cols|, i requires 0 <= i < |cols| => RenameColumn(cols[i]));
    assert forall i :: 0 <= i < |cols| ==> renamed[i] == RenameColumn(cols[i]);
    if "citas" !in renamed && "cited_by_count" !in renamed then renamed + ["citas"] else renamed
  }

  /**
   * One row as `cargar_datos` leaves it. Renaming `pais` to `pais_institucion` carries that
   * column's values along, so they are read as `paisInstitucion` afterwards; a table without
   * any citation column gets `citas = 0`.
   */
  function CargarFila(cols: seq<string>, x: Row): Row
  {
    var renombrada := if "pais" in cols && "pais_institucion" !in cols then x.(paisInstitucion := x.pais) else x;
    if "citas" !in cols && "cited_by_count" !in cols then renombrada.(citas := 0) else renombrada
  }

  /**
   * `cargar_datos`: every row is kept, in order, and only its country and citation fields
   * can change: a renamed `pais` column's value becomes the `pais_institucion` value, and
   * `citas` is 0 when the file had no citation column.
   */
  function CargarDatos(cols: seq<string>, rows: seq<Row>): (f: Frame)
    ensures f.columns == CargarColumnas(cols)
    ensures |f.rows| == |rows|
    ensures forall i :: 0 <= i < |rows| ==>
              f.rows[i].(paisInstitucion := rows[i].paisInstitucion, citas := rows[i].citas) == rows[i]
    ensures forall i :: 0 <= i < |rows| ==>
              f.rows[i].paisInstitucion == if "pais" in cols && "pais_institucion" !in cols then rows[i].pais else rows[i].paisInstitucion
    ensures forall i :: 0 <= i < |rows| ==>
              f.rows[i].citas == if "citas" !in cols && "cited_by_count" !in cols then 0 else rows[i].citas
  {
    Frame(CargarColumnas(cols), seq(|rows|, i requires 0 <= i < |rows| => CargarFila(cols, rows[i])))
  }

  // ---------------------------------------------------------------- limpiar_datos

  /** Step 1 of `limpiar_datos`: the name is not on the deny-list. */
  predicate NombrePermitido(x: Row) { x.nombre !in EXCLUIR_NOMBRES }

  /** Step 2: the institution is not on the deny-list. */
  predicate AfiliacionPermitida(x: Row) { x.institucion !in EXCLUIR_AFILIACIONES }

  /** Step 3: the main field is not on the deny-list. */
  predicate CampoPermitido(x: Row) { x.campoPrincipal !in CAMPOS_EXCLUIR }

  /** Step 4 for a table with a `pais_institucion` column. */
  predicate PaisInstitucionCL(x: Row) { x.paisInstitucion == "CL" }

  /** Step 4 for a table with only a `pais` column. */
  predicate PaisCL(x: Row) { x.pais == "CL" }

  /** The country test of step 4, which depends on which country column the table has. */
  predicate PaisOk(cols: seq<string>, x: Row)
  {
    if "pais_institucion" in cols then PaisInstitucionCL(x)
    else if "pais" in cols then PaisCL(x)
    else true
  }

  /** A row that every step of `limpiar_datos` keeps. */
  predicate Sobrevive(cols: seq<string>, x: Row)
  {
    NombrePermitido(x) && AfiliacionPermitida(x) && CampoPermitido(x) && PaisOk(cols, x)
  }

  /** The four masks of `limpiar_datos`, applied in the source's order. */
  function LimpiarFilas(cols: seq<string>, rows: seq<Row>): seq<Row>
  {
    var s3 := Filter(Filter(Filter(rows, NombrePermitido), AfiliacionPermitida), CampoPermitido);
    if "pais_institucion" in cols then Filter(s3, PaisInstitucionCL)
    else if "pais" in cols then Filter(s3, PaisCL)
    else s3
  }

  /** The chain of four masks is one mask by the conjunction of the four tests. */
  lemma LimpiarFilasIsOneFilter(cols: seq<string>, rows: seq<Row>)
    ensures LimpiarFilas(cols, rows) == Filter(rows, (x: Row) => Sobrevive(cols, x))
  {
    var p2 := (x: Row) => NombrePermitido(x) && AfiliacionPermitida(x);
    var p3 := (x: Row) => p2(x) && CampoPermitido(x);
    var p4 := (x: Row) => Sobrevive(cols, x);
    FilterFusionTo(rows, NombrePermitido, AfiliacionPermitida, p2);
    FilterFusionTo(rows, p2, CampoPermitido, p3);
    if "pais_institucion" in cols {
      FilterFusionTo(rows, p3, PaisInstitucionCL, p4);
    } else if "pais" in cols {
      FilterFusionTo(rows, p3, PaisCL, p4);
    } else {
      FilterExt(rows, p3, p4);
    }
  }

  /**
   * `limpiar_datos`: only removes rows, never edits one; every survivor passes the three
   * deny-lists and the country test; and every row passing them survives.
   */
  function LimpiarDatos(f: Frame): (r: Frame)
    ensures r.columns == f.columns
    ensures IsSubseq(r.rows, f.rows)
    ensures forall i :: 0 <= i < |r.rows| ==> Sobrevive(f.columns, r.rows[i])
    ensures forall i :: 0 <= i < |f.rows| && Sobrevive(f.columns, f.rows[i]) ==> f.rows[i] in r.rows
  {
    var p := (x: Row) => Sobrevive(f.columns, x);
    LimpiarFilasIsOneFilter(f.columns, f.rows);
    FilterIsSubseq(f.rows, p);
    var kept := Filter(f.rows, p);
    assert forall i :: 0 <= i < |kept| ==> p(kept[i]);
    Frame(f.columns, kept)
  }

  /**
   * What cleaning guarantees about every survivor: none of the three deny-lists match,
   * and the country is "CL" whenever the table has a country column.
   */
  lemma LimpiarDatosSurvivors(f: Frame, i: nat)
    requires i < |LimpiarDatos(f).rows|
    ensures LimpiarDatos(f).rows[i].nombre !in EXCLUIR_NOMBRES
    ensures LimpiarDatos(f).rows[i].institucion !in EXCLUIR_AFILIACIONES
    ensures LimpiarDatos(f).rows[i].campoPrincipal !in CAMPOS_EXCLUIR
    ensures "pais_institucion" in f.columns ==> LimpiarDatos(f).rows[i].paisInstitucion == "CL"
    ensures "pais_institucion" !in f.columns && "pais" in f.columns ==> LimpiarDatos(f).rows[i].pais == "CL"
  {
    assert Sobrevive(f.columns, LimpiarDatos(f).rows[i]);
  }

  /** Cleaning an already clean table changes nothing. */
  lemma LimpiarDatosIdempotent(f: Frame)
    ensures LimpiarDatos(LimpiarDatos(f)) == LimpiarDatos(f)
  {
    var p := (x: Row) => Sobrevive(f.columns, x);
    LimpiarFilasIsOneFilter(f.columns, f.rows);
    var once := Filter(f.rows, p);
    LimpiarFilasIsOneFilter(f.columns, once);
    FilterAll(once, p);
  }

  /** The affiliation "Gobierno de Chile" never survives cleaning. */
  lemma GobiernoNeverSurvives(f: Frame)
    ensures forall i :: 0 <= i < |LimpiarDatos(f).rows| ==> LimpiarDatos(f).rows[i].institucion != "Gobierno de Chile"
  {
    assert "Gobierno de Chile" == EXCLUIR_AFILIACIONES[0];
  }

  /** Loading does not change which rows cleaning keeps: the country test reads the file's own country column. */
  lemma CargarConservaSobrevive(cols: seq<string>, x: Row)
    ensures Sobrevive(CargarColumnas(cols), CargarFila(cols, x)) <==> Sobrevive(cols, x)
  {
    var y := CargarFila(cols, x);
    assert y.nombre == x.nombre && y.institucion == x.institucion && y.campoPrincipal == x.campoPrincipal;
    assert PaisOk(CargarColumnas(cols), y) <==> PaisOk(cols, x);
  }

  /**
   * Loading then cleaning keeps a row exactly when it passes the three deny-lists and the
   * country column of the file (`pais_institucion`, else `pais`) says "CL".
   */
  lemma CargarLimpiarDatos(cols: seq<string>, rows: seq<Row>)
    ensures forall i :: 0 <= i < |rows| ==>
              (CargarFila(cols, rows[i]) in LimpiarDatos(CargarDatos(cols, rows)).rows <==> Sobrevive(cols, rows[i]))
  {
    var f := CargarDatos(cols, rows);
    var r := LimpiarDatos(f);
    forall i | 0 <= i < |rows|
      ensures CargarFila(cols, rows[i]) in r.rows <==> Sobrevive(cols, rows[i])
    {
      assert f.rows[i] == CargarFila(cols, rows[i]);
      CargarConservaSobrevive(cols, rows[i]);
      if CargarFila(cols, rows[i]) in r.rows {
        var j :| 0 <= j < |r.rows| && r.rows[j] == CargarFila(cols, rows[i]);
        assert Sobrevive(f.columns, r.rows[j]);
      }
    }
  }

  /**
   * Every row left after loading and cleaning is a row of the file that passes cleaning,
   * loaded; its country is "CL" whenever the file had a country column.
   */
  lemma CargarLimpiarSurvivors(cols: seq<string>, rows: seq<Row>, j: nat)
    requires j < |LimpiarDatos(CargarDatos(cols, rows)).rows|
    ensures exists i :: 0 <= i < |rows| && Sobrevive(cols, rows[i])
                        && LimpiarDatos(CargarDatos(cols, rows)).rows[j] == CargarFila(cols, rows[i])
    ensures "pais" in cols || "pais_institucion" in cols ==> LimpiarDatos(CargarDatos(cols, rows)).rows[j].paisInstitucion == "CL"
  {
    var f := CargarDatos(cols, rows);
    var r := LimpiarDatos(f);
    SubseqMembers(r.rows, f.rows);
    assert r.rows[j] in f.rows;
    var i :| 0 <= i < |f.rows| && f.rows[i] == r.rows[j];
    assert f.rows[i] == CargarFila(cols, rows[i]);
    CargarConservaSobrevive(cols, rows[i]);
    assert Sobrevive(f.columns, r.rows[j]);
  }

  // ---------------------------------------------------------------- filtrar_por_hindex

  /** `filtrar_por_hindex`: keeps, in order, exactly the rows with `h_index >= minimo`. */
  function FiltrarPorHindex(rows: seq<Row>, minimo: int): (r: seq<Row>)
    ensures IsSubseq(r, rows)
    ensures forall i :: 0 <= i < |r| ==> r[i].hIndex >= minimo
    ensures forall i :: 0 <= i < |rows| && rows[i].hIndex >= minimo ==> rows[i] in r
  {
    FilterIsSubseq(rows, (x: Row) => x.hIndex >= minimo);
    Filter(rows, (x: Row) => x.hIndex >= minimo)
  }

  // ---------------------------------------------------------------- buscar_scholar_id

  const HYPHEN: char := '\U{2010}'
  const EN_DASH: char := '\U{2013}'

  /** `nombre.replace("‐", "-").replace("–", "-")`. */
  function NormalizarGuiones(nombre: string): (r: string)
    ensures |r| == |nombre|
    ensures HYPHEN !in r && EN_DASH !in r
    ensures forall i :: 0 <= i < |nombre| ==> r[i] == (if nombre[i] == HYPHEN || nombre[i] == EN_DASH then '-' else nombre[i])
  {
    var s1 := ReplaceAll(nombre, [HYPHEN], "-");
    ReplaceAllChar(nombre, HYPHEN, "-");
    ReplaceDashFacts(nombre, HYPHEN);
    var s2 := ReplaceAll(s1, [EN_DASH], "-");
    ReplaceAllChar(s1, EN_DASH, "-");
    ReplaceDashFacts(s1, EN_DASH);
    s2
  }

  /** Replacing one character by '-' keeps the length and changes only that character. */
  lemma {:induction false} ReplaceDashFacts(s: string, c: char)
    requires c != '-'
    ensures |ReplaceChar(s, c, "-")| == |s|
    ensures c !in ReplaceChar(s, c, "-")
    ensures forall i :: 0 <= i < |s| ==> ReplaceChar(s, c, "-")[i] == (if s[i] == c then '-' else s[i])
  {
    if |s| > 0 {
      ReplaceDashFacts(s[1..], c);
    }
  }

  /**
   * `buscar_scholar_id`: the table value on an exact hit, else the value for the
   * dash-normalised name, else "". It never fails; the affiliation is not consulted.
   */
  function BuscarScholarId(nombre: string, afiliacion: string): (r: string)
    ensures nombre in SCHOLAR_IDS_CONOCIDOS ==> r == SCHOLAR_IDS_CONOCIDOS[nombre]
    ensures nombre !in SCHOLAR_IDS_CONOCIDOS && NormalizarGuiones(nombre) in SCHOLAR_IDS_CONOCIDOS ==>
              r == SCHOLAR_IDS_CONOCIDOS[NormalizarGuiones(nombre)]
    ensures nombre !in SCHOLAR_IDS_CONOCIDOS && NormalizarGuiones(nombre) !in SCHOLAR_IDS_CONOCIDOS ==> r == ""
  {
    if nombre in SCHOLAR_IDS_CONOCIDOS then SCHOLAR_IDS_CONOCIDOS[nombre]
    else
      var normalizado := NormalizarGuiones(nombre);
      if normalizado in SCHOLAR_IDS_CONOCIDOS then SCHOLAR_IDS_CONOCIDOS[normalizado] else ""
  }

  /** A name without the two special dashes is left as it is. */
  lemma NormalizarGuionesSinGuiones(nombre: string)
    requires HYPHEN !in nombre && EN_DASH !in nombre
    ensures NormalizarGuiones(nombre) == nombre
  {
  }

  /** Normalising dashes twice is normalising once. */
  lemma NormalizarGuionesIdempotent(nombre: string)
    ensures NormalizarGuiones(NormalizarGuiones(nombre)) == NormalizarGuiones(nombre)
  {
  }

  /** For a name not in the table, the lookup only depends on its dash-normalised form. */
  lemma BuscarUnknownNameUsesNormalForm(nombre: string, afiliacion: string)
    requires nombre !in SCHOLAR_IDS_CONOCIDOS
    ensures BuscarScholarId(nombre, afiliacion) == BuscarScholarId(NormalizarGuiones(nombre), afiliacion)
  {
    NormalizarGuionesIdempotent(nombre);
  }

  // ---------------------------------------------------------------- clasificar_disciplina

  const CIENCIA_POLITICA: string := "Ciencia Pol\U{ED}tica"
  const SOCIOLOGIA: string := "Sociolog\U{ED}a"
  const ECONOMIA: string := "Econom\U{ED}a"
  const PSICOLOGIA: string := "Psicolog\U{ED}a"
  const EDUCACION: string := "Educaci\U{F3}n"
  const COMUNICACION: string := "Comunicaci\U{F3}n"
  const CIENCIAS_SOCIALES: string := "Ciencias Sociales"
  const HUMANIDADES: string := "Humanidades"
  const ADMINISTRACION: string := "Administraci\U{F3}n"

  /** The nine labels the classifier can produce. */
  const DISCIPLINAS: set<string> := {
    CIENCIA_POLITICA, SOCIOLOGIA, ECONOMIA, PSICOLOGIA, EDUCACION,
    COMUNICACION, CIENCIAS_SOCIALES, HUMANIDADES, ADMINISTRACION
  }

  const KW_POLITICA: seq<string> := ["political", "electoral", "democracy", "populism", "governance", "international relations"]
  const KW_SOCIOLOGIA: seq<string> := ["sociolog", "social stratification", "inequality", "social movement", "cultural"]
  const KW_ECONOMIA: seq<string> := ["economic", "labor market", "fiscal", "trade"]
  const KW_PSICOLOGIA: seq<string> := ["psycholog"]
  const KW_EDUCACION: seq<string> := ["education", "school", "teacher"]
  const KW_COMUNICACION: seq<string> := ["media", "communication", "journalism"]
  const KW_NEGOCIOS: seq<string> := ["Business"]

  /** Python's `any(x in hay for x in needles)`. */
  predicate AnySubstring(needles: seq<string>, hay: string)
  {
    |needles| > 0 && (IsSubstring(needles[0], hay) || AnySubstring(needles[1..], hay))
  }

  /** Some needle of the list occurs in the haystack. */
  lemma {:induction false} AnySubstringWitness(needles: seq<string>, hay: string, k: nat)
    requires k < |needles| && IsSubstring(needles[k], hay)
    ensures AnySubstring(needles, hay)
  {
    if k > 0 {
      AnySubstringWitness(needles[1..], hay, k - 1);
    }
  }

  /** No needle of the list occurs in the haystack. */
  lemma {:induction false} NoSubstring(needles: seq<string>, hay: string)
    requires forall k :: 0 <= k < |needles| ==> !IsSubstring(needles[k], hay)
    ensures !AnySubstring(needles, hay)
  {
    if |needles| > 0 {
      NoSubstring(needles[1..], hay);
    }
  }

  /**
   * `clasificar_disciplina`: keyword rules tried in a fixed order over the lowercased
   * topics; the main field is compared by equality, except for the "Business" substring.
   */
  function ClasificarDisciplina(campo: string, topics: string): (r: string)
    ensures r in DISCIPLINAS
  {
    var t := Lower(topics);
    if AnySubstring(KW_POLITICA, t) then CIENCIA_POLITICA
    else if AnySubstring(KW_SOCIOLOGIA, t) then SOCIOLOGIA
    else if campo == "Economics, Econometrics and Finance" || AnySubstring(KW_ECONOMIA, t) then ECONOMIA
    else if campo == "Psychology" || AnySubstring(KW_PSICOLOGIA, t) then PSICOLOGIA
    else if AnySubstring(KW_EDUCACION, t) then EDUCACION
    else if AnySubstring(KW_COMUNICACION, t) then COMUNICACION
    else if campo == "Social Sciences" then CIENCIAS_SOCIALES
    else if campo == "Arts and Humanities" then HUMANIDADES
    else if AnySubstring(KW_NEGOCIOS, campo) then ADMINISTRACION
    else CIENCIAS_SOCIALES
  }

  /** One classification rule: a label and the three ways a row can match it. */
  datatype Regla = Regla(etiqueta: string, camposIguales: seq<string>, camposContienen: seq<string>, palabras: seq<string>)

  predicate Aplica(regla: Regla, campo: string, topicsMinusculas: string)
  {
    campo in regla.camposIguales || AnySubstring(regla.camposContienen, campo) || AnySubstring(regla.palabras, topicsMinusculas)
  }

  /** The classifier's rules as a table, in priority order. */
  function ReglaNumero(k: nat): Regla
    requires k < 9
  {
    match k
    case 0 => Regla(CIENCIA_POLITICA, [], [], KW_POLITICA)
    case 1 => Regla(SOCIOLOGIA, [], [], KW_SOCIOLOGIA)
    case 2 => Regla(ECONOMIA, ["Economics, Econometrics and Finance"], [], KW_ECONOMIA)
    case 3 => Regla(PSICOLOGIA, ["Psychology"], [], KW_PSICOLOGIA)
    case 4 => Regla(EDUCACION, [], [], KW_EDUCACION)
    case 5 => Regla(COMUNICACION, [], [], KW_COMUNICACION)
    case 6 => Regla(CIENCIAS_SOCIALES, ["Social Sciences"], [], [])
    case 7 => Regla(HUMANIDADES, ["Arts and Humanities"], [], [])
    case _ => Regla(ADMINISTRACION, [], KW_NEGOCIOS, [])
  }

  /** First-match-wins evaluation of the rule table from rule `k` on. */
  function PrimeraRegla(k: nat, campo: string, topicsMinusculas: string): string
    requires k <= 9
    decreases 9 - k
  {
    if k == 9 then CIENCIAS_SOCIALES
    else if Aplica(ReglaNumero(k), campo, topicsMinusculas) then ReglaNumero(k).etiqueta
    else PrimeraRegla(k + 1, campo, topicsMinusculas)
  }

  /** The classifier is the first-match evaluation of the rule table, defaulting to "Ciencias Sociales". */
  lemma ClasificarIsFirstMatch(campo: string, topics: string)
    ensures ClasificarDisciplina(campo, topics) == PrimeraRegla(0, campo, Lower(topics))
  {
    var t := Lower(topics);
    var r := ClasificarDisciplina(campo, topics);
    assert !AnySubstring([], campo) && !AnySubstring([], t);
    if AnySubstring(KW_POLITICA, t) {
      assert Aplica(ReglaNumero(0), campo, t);
    } else if AnySubstring(KW_SOCIOLOGIA, t) {
      assert Aplica(ReglaNumero(1), campo, t);
    } else if campo == "Economics, Econometrics and Finance" || AnySubstring(KW_ECONOMIA, t) {
      assert Aplica(ReglaNumero(2), campo, t);
    } else if campo == "Psychology" || AnySubstring(KW_PSICOLOGIA, t) {
      assert Aplica(ReglaNumero(3), campo, t);
    } else if AnySubstring(KW_EDUCACION, t) {
      assert Aplica(ReglaNumero(4), campo, t);
    } else if AnySubstring(KW_COMUNICACION, t) {
      assert Aplica(ReglaNumero(5), campo, t);
    } else {
      assert PrimeraRegla(0, campo, t) == PrimeraRegla(6, campo, t);
      assert PrimeraRegla(6, campo, t) == r;
    }
  }

  /** No political-science keyword occurs in "economic". */
  lemma NoPoliticalKeywordInEconomic()
    ensures !AnySubstring(KW_POLITICA, "economic")
  {
    var t := "economic";
    forall k | 0 <= k < |KW_POLITICA| ensures !IsSubstring(KW_POLITICA[k], t) {
      if k == 1 || k == 5 { NotSubstringLonger(KW_POLITICA[k], t); }
      else { NotSubstringMissingChar(KW_POLITICA[k], t, 0); }
    }
    NoSubstring(KW_POLITICA, t);
  }

  /** No sociology keyword occurs in "economic". */
  lemma NoSociologyKeywordInEconomic()
    ensures !AnySubstring(KW_SOCIOLOGIA, "economic")
  {
    var t := "economic";
    forall k | 0 <= k < |KW_SOCIOLOGIA| ensures !IsSubstring(KW_SOCIOLOGIA[k], t) {
      if k == 0 { NotSubstringMissingChar(KW_SOCIOLOGIA[k], t, 0); }
      else if k == 4 { NotSubstringMissingChar(KW_SOCIOLOGIA[k], t, 1); }
      else { NotSubstringLonger(KW_SOCIOLOGIA[k], t); }
    }
    NoSubstring(KW_SOCIOLOGIA, t);
  }

  /** Field "Psychology" with an "Economic" topic is classified as economics: the topic rule comes first. */
  lemma PsychologyWithEconomicTopic()
    ensures ClasificarDisciplina("Psychology", "Economic") == ECONOMIA
  {
    assert Lower("Economic") == "economic";
    NoPoliticalKeywordInEconomic();
    NoSociologyKeywordInEconomic();
    assert IsSubstring(KW_ECONOMIA[0], "economic");
  }

  // ---------------------------------------------------------------- display helpers

  /** Short names of the institutions shown on the web page. */
  const INSTITUCIONES_CORTAS: map<string, string> := map[
        "Pontificia Universidad Cat\U{F3}lica de Chile" := "PUC Chile",
        "University of Chile" := "U. Chile",
        "Universidad de Santiago de Chile" := "USACH",
        "Universidad Diego Portales" := "UDP",
        "Adolfo Ib\U{E1}\U{F1}ez University" := "UAI",
        "University of Talca" := "U. Talca",
        "Universidad Mayor" := "U. Mayor",
        "Pontificia Universidad Cat\U{F3}lica de Valpara\U{ED}so" := "PUCV",
        "Federico Santa Mar\U{ED}a Technical University" := "USM",
        "Austral University of Chile" := "UACh",
        "University of Valpara\U{ED}so" := "UV",
        "University of Concepci\U{F3}n" := "UdeC",
        "Universidad de Los Andes, Chile" := "U. Andes",
        "Centro de Estudios Cient\U{ED}ficos" := "CECS",
        "Centro de Recursos Educativos Avanzados" := "CREA",
        "Universidad Andr\U{E9}s Bello" := "UNAB",
        "Universidad del Desarrollo" := "UDD",
        "Universidad Alberto Hurtado" := "UAH",
        "Finis Terrae University" := "U. Finis Terrae",
        "San Sebasti\U{E1}n University" := "USS",
        "Universidad La Rep\U{FA}blica" := "U. La Rep\U{FA}blica",
        "Universidad de La Frontera" := "UFRO",
        "University of B\U{ED}o-B\U{ED}o" := "UBB",
        "Millennium Science Initiative" := "ICM",
        "Data Observatory Foundation" := "Data Observatory",
        "Inria Chile" := "Inria Chile"
  ]

  /** `normalizar_institucion`: the short name when there is one, else the name unchanged. */
  function NormalizarInstitucion(institucion: string): string
  {
    if institucion in INSTITUCIONES_CORTAS then INSTITUCIONES_CORTAS[institucion] else institucion
  }

  /** Every short name has at most 16 characters, and the only name that short in the table is its own short name. */
  lemma ShortNameLengths()
    ensures forall k :: k in INSTITUCIONES_CORTAS ==>
              |INSTITUCIONES_CORTAS[k]| <= 16 && (|k| <= 16 ==> INSTITUCIONES_CORTAS[k] == k)
  {
  }

  /** Normalising an already normalised institution changes nothing: no short name is shortened again. */
  lemma NormalizarInstitucionIdempotent(institucion: string)
    ensures NormalizarInstitucion(NormalizarInstitucion(institucion)) == NormalizarInstitucion(institucion)
  {
    ShortNameLengths();
  }

  /** Normalising never lengthens a name, and a known institution whose short name differs gets a strictly shorter one. */
  lemma NormalizarInstitucionShortens(institucion: string)
    ensures |NormalizarInstitucion(institucion)| <= |institucion|
    ensures institucion in INSTITUCIONES_CORTAS && INSTITUCIONES_CORTAS[institucion] != institucion ==>
              |NormalizarInstitucion(institucion)| < |institucion|
  {
  }

  /** Abbreviations of the nine discipline labels. */
  const ABREVIATURAS: map<string, string> := map[
    CIENCIA_POLITICA := "C.Pol", SOCIOLOGIA := "Soc", ECONOMIA := "Econ",
    PSICOLOGIA := "Psic", EDUCACION := "Educ", COMUNICACION := "Com",
    HUMANIDADES := "Hum", ADMINISTRACION := "Adm", CIENCIAS_SOCIALES := "CS"
  ]

  /** `abreviar_disciplina`: the abbreviation of a known label, else the first four characters. */
  function AbreviarDisciplina(disciplina: string): (r: string)
    ensures disciplina in ABREVIATURAS ==> r == ABREVIATURAS[disciplina]
    ensures disciplina !in ABREVIATURAS ==> r <= disciplina && |r| == (if |disciplina| < 4 then |disciplina| else 4)
  {
    if disciplina in ABREVIATURAS then ABREVIATURAS[disciplina] else SliceTo(disciplina, 4)
  }

  /** Every label the classifier produces has its own abbreviation of at most five characters. */
  lemma AbreviarClasificada(campo: string, topics: string)
    ensures ClasificarDisciplina(campo, topics) in ABREVIATURAS
    ensures AbreviarDisciplina(ClasificarDisciplina(campo, topics)) in ["C.Pol", "Soc", "Econ", "Psic", "Educ", "Com", "CS", "Hum", "Adm"]
    ensures |AbreviarDisciplina(ClasificarDisciplina(campo, topics))| <= 5
  {
  }

  /** One topic of `extraer_topics_cortos`: stripped, common words dropped, cut to 40 characters. */
  function TopicoCorto(t: string): (r: string)
    ensures |r| <= 40
  {
    var u := ReplaceAll(ReplaceAll(Strip(t), " and ", ", "), " in ", " ");
    if |u| > 40 then u[..37] + "..." else u
  }

  /** A stripped topic of at most 40 characters holding neither " and " nor " in " is shown as it is. */
  lemma TopicoCortoKeepsPlainTopic(t: string)
    requires Strip(t) == t && |t| <= 40 && !IsSubstring(" and ", t) && !IsSubstring(" in ", t)
    ensures TopicoCorto(t) == t
  {
    ReplaceAbsent(t, " and ", ", ");
    ReplaceAbsent(t, " in ", " ");
  }

  /** The shortened segments of a topics string, at most `maxTopics` of them. */
  function SegmentosCortos(topicsStr: string, maxTopics: int): (segs: seq<string>)
    ensures maxTopics >= 0 ==> |segs| <= maxTopics
    ensures |segs| <= |Split(topicsStr, ';')|
    ensures forall k :: 0 <= k < |segs| ==> |segs[k]| <= 40
    ensures |segs| == |SliceTo(Split(topicsStr, ';'), maxTopics)|
    ensures forall k :: 0 <= k < |segs| ==> segs[k] == TopicoCorto(Split(topicsStr, ';')[k])
  {
    var partes := SliceTo(Split(topicsStr, ';'), maxTopics);
    seq(|partes|, k requires 0 <= k < |partes| => TopicoCorto(partes[k]))
  }

  /**
   * `extraer_topics_cortos`: "" for an empty string; otherwise at most `maxTopics`
   * segments of at most 40 characters joined by "; ".
   */
  function ExtraerTopicosCortos(topicsStr: string, maxTopics: int): (r: string)
    ensures topicsStr == "" ==> r == ""
    ensures topicsStr != "" ==> r == Join(SegmentosCortos(topicsStr, maxTopics), "; ")
    ensures maxTopics >= 0 ==> |r| <= maxTopics * 42
  {
    if topicsStr == "" then ""
    else
      var segs := SegmentosCortos(topicsStr, maxTopics);
      JoinLength(segs, "; ", 40);
      Join(segs, "; ")
  }

  // ---------------------------------------------------------------- main: sort and rank

  /** A ranked row with the columns `main` adds. */
  datatype Procesado = Procesado(fila: Row, disciplina: string, scholarId: string)

  /** The columns `agregar_disciplina` and `agregar_scholar_ids` add to one row. */
  function Anotar(x: Row): Procesado
  {
    Procesado(x, ClasificarDisciplina(x.campoPrincipal, x.topics), BuscarScholarId(x.nombre, x.institucion))
  }

  /** `agregar_disciplina` and `agregar_scholar_ids` over a whole table. */
  function AnotarTodas(xs: seq<Row>): (r: seq<Procesado>)
    ensures |r| == |xs| && forall i :: 0 <= i < |xs| ==> r[i] == Anotar(xs[i])
  {
    seq(|xs|, i requires 0 <= i < |xs| => Anotar(xs[i]))
  }

  /** `sort_values("h_index", ascending=False)`: the sort key. */
  function ClaveH(x: Row): (int, int) { (x.hIndex, 0) }

  /** The rows of a ranking, without ranks and added columns. */
  function Filas(r: seq<Ranked<Procesado>>): (xs: seq<Row>)
    ensures |xs| == |r| && forall i :: 0 <= i < |r| ==> xs[i] == r[i].item.fila
  {
    seq(|r|, i requires 0 <= i < |r| => r[i].item.fila)
  }

  /**
   * `main`: clean, keep h-index >= 1, annotate, sort by h-index descending, number 1..n.
   * Annotation is per row, so annotating before or after sorting gives the same rows.
   * Ties in h-index come out in some order; only the ordering by h-index is claimed.
   */
  function ProcesarRanking(f: Frame): (r: seq<Ranked<Procesado>>)
    ensures |r| == |FiltrarPorHindex(LimpiarDatos(f).rows, H_INDEX_MINIMO)|
    ensures forall i :: 0 <= i < |r| ==> r[i].rank == i + 1
    ensures forall i, j :: 0 <= i < j < |r| ==> r[i].item.fila.hIndex >= r[j].item.fila.hIndex
    ensures forall i :: 0 <= i < |r| ==> r[i].item == Anotar(r[i].item.fila)
    ensures multiset(Filas(r)) == multiset(FiltrarPorHindex(LimpiarDatos(f).rows, H_INDEX_MINIMO))
  {
    var ordenadas := SortDesc(FiltrarPorHindex(LimpiarDatos(f).rows, H_INDEX_MINIMO), ClaveH);
    var r := AssignRanks(AnotarTodas(ordenadas));
    assert Filas(r) == ordenadas;
    assert forall i, j :: 0 <= i < j < |r| ==> GeKey(ClaveH(ordenadas[i]), ClaveH(ordenadas[j]));
    r
  }

  /** Every ranked row passed cleaning and the h-index threshold. */
  lemma ProcesarRankingRowsQualify(f: Frame, i: nat)
    requires i < |ProcesarRanking(f)|
    ensures Sobrevive(f.columns, ProcesarRanking(f)[i].item.fila)
    ensures ProcesarRanking(f)[i].item.fila.hIndex >= H_INDEX_MINIMO
    ensures ProcesarRanking(f)[i].item.fila.institucion != "Gobierno de Chile"
  {
    var r := ProcesarRanking(f);
    var filtradas := FiltrarPorHindex(LimpiarDatos(f).rows, H_INDEX_MINIMO);
    var x := r[i].item.fila;
    assert x == Filas(r)[i];
    assert x in multiset(filtradas);
    var k :| 0 <= k < |filtradas| && filtradas[k] == x;
    SubseqMembers(filtradas, LimpiarDatos(f).rows);
    assert "Gobierno de Chile" == EXCLUIR_AFILIACIONES[0];
  }
}
