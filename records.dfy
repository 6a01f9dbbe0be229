/**
 * One row of the "serie_larga_enriquecida" sheet: a (program, admission year,
 * admission route) observation with the program's precomputed 2023-2026 trend
 * attributes. Field names follow the sheet's column names.
 *
 * Cells arrive already coerced (the loader's `pd.to_numeric(..., errors="coerce")`):
 * None is a missing or unparseable cell (pandas NaN / NA). Numeric columns that
 * pandas holds as floats are integers here; the pipeline only compares them.
 */
module Records {
  import opened Wrappers

  datatype Record = Record(
    proceso: Option<int>,             // PROCESO, the admission year
    codigoCarrera: Option<int>,       // CODIGO_CARRERA, the program code
    via: Option<string>,              // VIA, the admission route
    puntajeCorte: Option<int>,        // PUNTAJE_CORTE, the cut-off score
    nSeleccionados: Option<int>,      // N_SELECCIONADOS
    nombreCarrera: Option<string>,    // NOMBRE_CARRERA
    nombreUniversidad: Option<string>,// NOMBRE_UNIVERSIDAD
    regCodigo: Option<int>,           // REG_CODIGO, the region
    delta2623: Option<int>,           // DELTA_26_23
    sd2326: Option<int>,              // SD_23_26
    slopePtsAnio: Option<int>,        // SLOPE_PTS_ANIO
    nMin2326: Option<int>,            // N_MIN_23_26
    nProm2326: Option<int>,           // N_PROM_23_26
    tipoTendencia: Option<string>,    // TIPO_TENDENCIA
    estabilidad: Option<string>,      // ESTABILIDAD
    cuadrante: Option<string>,        // CUADRANTE
    cluster: Option<int>,             // CLUSTER
    clusterLabel: Option<string>,     // CLUSTER_LABEL
    deltaYoy: Option<int>)            // DELTA_YOY
}
