/**
 The configuration the two pipelines read (`AppSettings`), with the defaults
 that apply when `appsettings.json` leaves a value out.
 */
module Settings {
  import opened Numbers

  datatype OpenWeatherMapSettings = OpenWeatherMapSettings(
    apiKey: string,
    baseUrl: string,
    defaultUnits: string,
    defaultLanguage: string,
    requestTimeoutSeconds: Int32)

  datatype ScrapingSettings = ScrapingSettings(
    maxLinks: Int32,
    requestTimeoutSeconds: Int32)

  const DefaultOpenWeatherMap: OpenWeatherMapSettings := OpenWeatherMapSettings(
    apiKey := "",
    baseUrl := "https://api.openweathermap.org/data/2.5/weather",
    defaultUnits := "metric",
    defaultLanguage := "ru",
    requestTimeoutSeconds := 20)

  const DefaultScraping: ScrapingSettings := ScrapingSettings(
    maxLinks := 10,
    requestTimeoutSeconds := 20)
}
